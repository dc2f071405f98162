/**
 The accuracy-routing gate of qcom/scripts/linux/accuracy_gate.py: which accuracy cases must be
 executed, given the results of the snapshot tests and the versions of the tools.
 */
module AccuracyGate {
  import opened Text
  import opened Wrappers
  import opened Sorting

  datatype Case = Case(suite: string, name: string)

  /** One entry of the gtest report; a missing key is None, missing failures are none. */
  datatype TestCase = TestCase(failures: seq<string>, result: Option<string>, status: Option<string>)

  datatype Status = Passed | Drift | Skipped

  datatype Reason = Drifted | Absent | Unmapped | VersionMismatch

  datatype Decision = Decision(case_: Case, run: bool, reasons: set<Reason>)

  datatype ToolVersions = ToolVersions(qairt: Option<string>, ort: Option<string>) {
    predicate Complete() { qairt.Some? && ort.Some? }

    predicate Matches(other: ToolVersions) { Complete() && other.Complete() && this == other }
  }

  function Classify(tc: TestCase): Status {
    if tc.failures != [] then Drift
    else if tc.result == Some("SKIPPED") || tc.status == Some("NOTRUN") then Skipped
    else if tc.result == Some("COMPLETED") then Passed
    else Skipped
  }

  /** DRIFT > SKIPPED > PASSED */
  function MergeStatus(a: Option<Status>, b: Status): Status {
    if a.None? || Order(a.value) < Order(b) then b else a.value
  }

  function Order(s: Status): nat {
    match s case Passed => 0 case Skipped => 1 case Drift => 2
  }

  // ---------------------------------------------------------------- suite names

  const OpBuilder := "_OpBuilder"
  const Session := "_Session"

  /** Length of the tier token at position i, or 0. */
  function TierAt(s: string, i: nat): nat
    requires i <= |s|
  {
    if StartsWith(s[i..], OpBuilder) then |OpBuilder| else if StartsWith(s[i..], Session) then |Session| else 0
  }

  /** An optional variant and "Test". */
  predicate IsTail(s: string) { EndsWith(s, "Test") && (|s| == 4 || s[0] == '_') }

  predicate SplitsAt(body: string, i: nat) {
    1 <= i <= |body| && TierAt(body, i) > 0 && IsTail(body[i + TierAt(body, i)..])
  }

  /** The shortest operator name for which the rest of the suite name has the legacy shape. */
  function FirstSplit(body: string, i: nat): (r: Option<nat>)
    ensures r.Some? ==> SplitsAt(body, r.value)
    decreases |body| - i
  {
    if i > |body| then None else if SplitsAt(body, i) then Some(i) else FirstSplit(body, i + 1)
  }

  /** Replacement of the first "_SessionSnapshot" or "_Snapshot". */
  function ReplaceTier(s: string): string {
    if s == [] then []
    else if StartsWith(s, "_SessionSnapshot") then "_Accuracy" + s[|"_SessionSnapshot"|..]
    else if StartsWith(s, "_Snapshot") then "_Accuracy" + s[|"_Snapshot"|..]
    else [s[0]] + ReplaceTier(s[1..])
  }

  predicate TokenAt(s: string, i: nat)
    requires i <= |s|
  {
    StartsWith(s[i..], "_SessionSnapshot") || StartsWith(s[i..], "_Snapshot")
  }

  /** The first snapshot token, of either kind, becomes the accuracy token; a name without one stays as it is. */
  lemma {:induction false} TokenReplaced(a: string, token: string, b: string)
    requires token == "_SessionSnapshot" || token == "_Snapshot" || (token == "" && b == "")
    requires forall i :: 0 <= i < |a| ==> !TokenAt(a + token + b, i)
    ensures ReplaceTier(a + token + b) == if token == "" then a else a + "_Accuracy" + b
  {
    hide TokenAt, ReplaceTier;
    var s := a + token + b;
    if a != "" {
      ReplaceStep(s);
      assert s[1..] == a[1..] + token + b;
      forall i | 0 <= i < |a| - 1 ensures !TokenAt(s[1..], i) { TokenShift(s, i); }
      TokenReplaced(a[1..], token, b);
    } else {
      assert s == token + b;
      ReplaceHere(token, b);
    }
  }

  lemma ReplaceStep(s: string)
    requires s != "" && !TokenAt(s, 0)
    ensures ReplaceTier(s) == [s[0]] + ReplaceTier(s[1..])
  {
    assert s[0..] == s;
  }

  lemma TokenShift(s: string, i: nat)
    requires i < |s|
    ensures TokenAt(s[1..], i) <==> TokenAt(s, i + 1)
  {
    assert s[1..][i..] == s[i + 1..];
  }

  lemma ReplaceHere(token: string, b: string)
    requires token == "_SessionSnapshot" || token == "_Snapshot" || (token == "" && b == "")
    ensures ReplaceTier(token + b) == if token == "" then "" else "_Accuracy" + b
  {
    var s := token + b;
    if token == "_SessionSnapshot" {
      assert s[..|token|] == token && s[|token|..] == b;
    } else if token == "_Snapshot" {
      assert s[..|token|] == token && s[|token|..] == b;
      assert s[2] == 'n' && "_SessionSnapshot"[2] == 'e';
    }
  }

  const LegacyPrefix := "QnnSnapshot_"

  function Paired(body: string, i: nat): string
    requires SplitsAt(body, i)
  {
    "QnnAcc_" + body[..i] + "_Accuracy" + body[i + TierAt(body, i)..]
  }

  function DeriveAccuracySuite(suite: string): string {
    if StartsWith(suite, LegacyPrefix) && FirstSplit(suite[|LegacyPrefix|..], 1).Some? then
      var body := suite[|LegacyPrefix|..];
      Paired(body, FirstSplit(body, 1).value)
    else ReplaceTier(suite)
  }

  /** Somewhere after its first character the operator name, with "_" behind it, has a tier token and "_". */
  ghost predicate HasTier(op: string, i: int) {
    1 <= i <= |op| && TierAt(op, i) > 0 && (op + "_")[i + TierAt(op, i)] == '_'
  }

  lemma TierShape(s: string, i: nat)
    requires i <= |s| && TierAt(s, i) > 0
    ensures var n := TierAt(s, i); i + n <= |s| && n >= 8 && s[i] == '_' && (s[i + 1] == 'O' || s[i + 1] == 'S')
    ensures forall k :: i < k < i + TierAt(s, i) ==> s[k] != '_'
  {
    var n := TierAt(s, i);
    forall k | i <= k < i + n ensures s[k] == s[i..][..n][k - i] {}
  }

  lemma TierWithin(op: string, rest: string, i: nat)
    requires i < |op| && rest != "" && rest[0] == '_'
    ensures TierAt(op + rest, i) == TierAt(op, i)
    ensures TierAt(op, i) > 0 ==> i + TierAt(op, i) <= |op|
  {
    var s := op + rest;
    if TierAt(s, i) > 0 {
      TierShape(s, i);
      var n := TierAt(s, i);
      assert s[|op|] == '_';
      assert s[i..][..n] == op[i..][..n];
    }
    if TierAt(op, i) > 0 {
      TierShape(op, i);
      var n := TierAt(op, i);
      assert i + n <= |op|;
      assert s[i..][..n] == op[i..][..n];
    }
  }

  lemma {:induction false} FirstSplitIs(body: string, from: nat, at: nat)
    requires from <= at <= |body| && SplitsAt(body, at)
    ensures FirstSplit(body, from).Some? && from <= FirstSplit(body, from).value <= at
    ensures FirstSplit(body, from) == Some(at) <==> forall i :: from <= i < at ==> !SplitsAt(body, i)
    decreases at - from
  {
    hide SplitsAt;
    if !SplitsAt(body, from) {
      assert from != at;
      FirstSplitIs(body, from + 1, at);
    }
  }

  predicate IsTier(tier: string) { tier == OpBuilder || tier == Session }

  predicate IsVariant(variant: string) { variant == "" || variant[0] == '_' }

  function SnapshotSuite(op: string, tier: string, variant: string): string {
    LegacyPrefix + (op + (tier + (variant + "Test")))
  }

  function AccuracySuite(op: string, variant: string): string {
    "QnnAcc_" + op + "_Accuracy" + (variant + "Test")
  }

  lemma SplitsInside(op: string, tier: string, tail: string, i: nat)
    requires 1 <= i < |op| && IsTier(tier) && EndsWith(tail, "Test")
    ensures SplitsAt(op + (tier + tail), i) <==> HasTier(op, i)
  {
    var body := op + (tier + tail);
    TierWithin(op, tier + tail, i);
    var n := TierAt(op, i);
    hide TierAt;
    if n > 0 {
      assert |tier| >= 8;
      var rest := body[i + n..];
      assert |rest| >= |tier + tail| > 4 && rest[0] == body[i + n] == (op + "_")[i + n];
      assert rest[|rest| - 4..] == tail[|tail| - 4..];
    }
  }

  lemma TierBetween(op: string, tier: string, tail: string)
    requires IsTier(tier)
    ensures TierAt(op + (tier + tail), |op|) == |tier| > 0 && (op + (tier + tail))[|op| + |tier|..] == tail
  {
    var body := op + (tier + tail);
    assert body[|op|..] == tier + tail;
    assert body[|op|..][..|tier|] == tier;
    assert |tier| == 8 ==> body[|op|..][1] == 'S';
    if StartsWith(body[|op|..], OpBuilder) { assert body[|op|..][..10][1] == 'O'; }
  }

  lemma TailOf(variant: string)
    requires IsVariant(variant)
    ensures IsTail(variant + "Test")
  {
    var s := variant + "Test";
    assert s[|s| - 4..] == "Test";
  }

  lemma SplitsBefore(op: string, tier: string, tail: string)
    requires op != "" && IsTier(tier) && IsTail(tail)
    ensures var body := op + (tier + tail);
            SplitsAt(body, |op|) && body[..|op|] == op && body[|op| + TierAt(body, |op|)..] == tail
  {
    hide TierAt, IsTail, IsTier;
    TierBetween(op, tier, tail);
  }

  lemma SplitsBetween(op: string, tier: string, variant: string)
    requires op != "" && IsTier(tier) && IsVariant(variant)
    ensures var body := op + (tier + (variant + "Test"));
            SplitsAt(body, |op|) && Paired(body, |op|) == AccuracySuite(op, variant)
  {
    TailOf(variant);
    hide TierAt, IsTail, IsVariant, IsTier, SplitsAt;
    SplitsBefore(op, tier, variant + "Test");
  }

  lemma PairedBefore(op: string, body: string, i: nat, y: string)
    requires SplitsAt(body, i) && op <= body && i < |op| && HasTier(op, i)
    ensures Paired(body, i) != "QnnAcc_" + op + y
  {
    TierShape(op, i);
    hide TierAt;
    var a, b := Paired(body, i), "QnnAcc_" + op + y;
    assert |"QnnAcc_"| == 7 && "_Accuracy"[1] == 'A';
    assert a[7 + i + 1] == 'A' && b[7 + i + 1] == op[i + 1];
  }

  lemma LegacyDerived(body: string)
    requires FirstSplit(body, 1).Some?
    ensures DeriveAccuracySuite(LegacyPrefix + body) == Paired(body, FirstSplit(body, 1).value)
  {
    hide FirstSplit, TierAt, ReplaceTier, SplitsAt, Paired;
    var suite := LegacyPrefix + body;
    assert suite[..|LegacyPrefix|] == LegacyPrefix && suite[|LegacyPrefix|..] == body;
    hide LegacyPrefix;
  }

  /**
   The OpBuilder and the Session snapshot suites of an operator are paired with its accuracy suite,
   and keep their variant, exactly when the operator name has no tier token of its own.
   */
  lemma PairedExactlyWithoutTier(op: string, tier: string, variant: string)
    requires op != "" && IsTier(tier) && IsVariant(variant)
    ensures DeriveAccuracySuite(SnapshotSuite(op, tier, variant)) == AccuracySuite(op, variant)
            <==> forall i :: i < |op| ==> !HasTier(op, i)
  {
    hide IsTail, HasTier, TierAt, IsVariant, IsTier, FirstSplit, StartsWith, SplitsAt, Paired, DeriveAccuracySuite;
    var tail := variant + "Test";
    var body := op + (tier + tail);
    SplitsBetween(op, tier, variant);
    FirstSplitIs(body, 1, |op|);
    assert EndsWith(tail, "Test") && op <= body;
    forall i | 1 <= i < |op| ensures SplitsAt(body, i) <==> HasTier(op, i) { SplitsInside(op, tier, tail, i); }
    forall i | i < 1 ensures !HasTier(op, i) { TierStarts(op, i); }
    LegacyDerived(body);
    var i := FirstSplit(body, 1).value;
    if i < |op| {
      PairedBefore(op, body, i, "_Accuracy" + tail);
      assert AccuracySuite(op, variant) == "QnnAcc_" + op + ("_Accuracy" + tail);
    }
  }

  /**
   A suite name that is not of the legacy shape has its first snapshot token, of either kind, replaced by the
   accuracy token, and stays as it is without one.
   */
  lemma OtherSuitesByToken(a: string, token: string, b: string)
    requires token == "_SessionSnapshot" || token == "_Snapshot" || (token == "" && b == "")
    requires forall i :: 0 <= i < |a| ==> !TokenAt(a + token + b, i)
    ensures !StartsWith(a + token + b, "QnnSnapshot_") ==>
            DeriveAccuracySuite(a + token + b) == if token == "" then a else a + "_Accuracy" + b
  {
    TokenReplaced(a, token, b);
    hide ReplaceTier, TokenAt, FirstSplit;
  }

  /** An operator whose name ends in a tier token is not paired with its own accuracy suite. */
  lemma TierInNameMispairs()
    ensures DeriveAccuracySuite(SnapshotSuite("A_Session", OpBuilder, "")) != AccuracySuite("A_Session", "")
  {
    var op := "A_Session";
    assert op[1..] == Session && StartsWith(op[1..], Session) && !StartsWith(op[1..], OpBuilder);
    assert HasTier(op, 1);
    hide HasTier, DeriveAccuracySuite;
    PairedExactlyWithoutTier(op, OpBuilder, "");
  }

  lemma TierStarts(op: string, i: int)
    ensures HasTier(op, i) ==> i >= 1
  {
  }

  // ---------------------------------------------------------------- what the decision should be

  type Report = map<Case, TestCase>

  function Derived(key: Case): Case { Case(DeriveAccuracySuite(key.suite), key.name) }

  /** Some snapshot result among the keys belongs to the accuracy case and has the status. */
  ghost predicate Has(report: Report, keys: set<Case>, c: Case, status: Status) {
    exists k :: k in keys && k in report && Derived(k) == c && Classify(report[k]) == status
  }

  ghost predicate Mapped(report: Report, keys: set<Case>, c: Case) {
    exists k :: k in keys && k in report && Derived(k) == c
  }

  /** The reasons to run a case, each with its own condition. */
  ghost function Reasons(report: Report, versionMatch: bool, c: Case): set<Reason> {
    (if versionMatch then {} else {VersionMismatch}) +
    (if Mapped(report, report.Keys, c) then {} else {Unmapped}) +
    (if Has(report, report.Keys, c, Drift) then {Drifted} else {}) +
    (if Has(report, report.Keys, c, Skipped) && !Has(report, report.Keys, c, Drift) then {Absent} else {})
  }

  /** The test completed, and without failures. */
  predicate Proves(tc: TestCase) {
    tc.failures == [] && tc.result == Some("COMPLETED") && tc.status != Some("NOTRUN")
  }

  ghost predicate MaySkip(report: Report, current: ToolVersions, manifest: ToolVersions, c: Case) {
    && current.qairt.Some? && current.ort.Some? && current.qairt == manifest.qairt && current.ort == manifest.ort
    && (exists k :: k in report && Derived(k) == c)
    && (forall k :: k in report && Derived(k) == c ==> Proves(report[k]))
  }

  /**
   A case has no reason to run exactly when all versions are known and equal, some snapshot result
   belongs to it, and every one that does completed without failures.
   */
  lemma SkippedExactlyWhenProved(report: Report, current: ToolVersions, manifest: ToolVersions, c: Case)
    ensures Reasons(report, current.Matches(manifest), c) == {} <==> MaySkip(report, current, manifest, c)
  {
    hide DeriveAccuracySuite;
    forall k | k in report ensures Classify(report[k]).Passed? <==> Proves(report[k]) { PassedIsProof(report[k]); }
    hide Classify, Proves;
    var reasons := Reasons(report, current.Matches(manifest), c);
    if reasons == {} {
      assert VersionMismatch !in reasons && Unmapped !in reasons && Drifted !in reasons && Absent !in reasons;
      forall k | k in report && Derived(k) == c ensures Proves(report[k]) {
        assert Classify(report[k]) != Drift && Classify(report[k]) != Skipped;
      }
    }
  }

  lemma PassedIsProof(tc: TestCase)
    ensures Classify(tc).Passed? <==> Proves(tc)
  {
    assert "COMPLETED"[0] != "SKIPPED"[0];
  }

  // ---------------------------------------------------------------- compute_run_set

  ghost predicate Summary(byAccuracy: map<Case, Status>, report: Report, keys: set<Case>, c: Case) {
    if c !in byAccuracy then !Mapped(report, keys, c)
    else
      Mapped(report, keys, c) &&
      byAccuracy[c] == (if Has(report, keys, c, Drift) then Drift else if Has(report, keys, c, Skipped) then Skipped else Passed)
  }

  lemma SummaryStep(before: map<Case, Status>, after: map<Case, Status>, report: Report, keys: set<Case>, k: Case, c: Case)
    requires k in report && Summary(before, report, keys, c)
    requires after == before[Derived(k) := MergeStatus(if Derived(k) in before then Some(before[Derived(k)]) else None,
                                                       Classify(report[k]))]
    ensures Summary(after, report, keys + {k}, c)
  {
    hide DeriveAccuracySuite, Classify;
    forall status ensures Has(report, keys + {k}, c, status) <==>
      Has(report, keys, c, status) || (Derived(k) == c && Classify(report[k]) == status)
    {
      HasStep(report, keys, k, c, status);
    }
    MappedStep(report, keys, k, c);
  }

  lemma HasStep(report: Report, keys: set<Case>, k: Case, c: Case, status: Status)
    requires k in report
    ensures Has(report, keys + {k}, c, status) <==>
      Has(report, keys, c, status) || (Derived(k) == c && Classify(report[k]) == status)
  {
    hide Derived, Classify;
    if Derived(k) == c && Classify(report[k]) == status { assert k in keys + {k}; }
    if Has(report, keys, c, status) {
      var j :| j in keys && j in report && Derived(j) == c && Classify(report[j]) == status;
      assert j in keys + {k};
    }
  }

  lemma MappedStep(report: Report, keys: set<Case>, k: Case, c: Case)
    requires k in report
    ensures Mapped(report, keys + {k}, c) <==> Mapped(report, keys, c) || Derived(k) == c
  {
    hide Derived;
    if Derived(k) == c { assert k in keys + {k}; }
    if Mapped(report, keys, c) {
      var j :| j in keys && j in report && Derived(j) == c;
      assert j in keys + {k};
    }
  }

  /** The results re-keyed by accuracy case, visited in any order. */
  method MergeResults(report: Report) returns (byAccuracy: map<Case, Status>)
    ensures forall c :: Summary(byAccuracy, report, report.Keys, c)
  {
    hide DeriveAccuracySuite, Classify, MergeStatus;
    byAccuracy := map[];
    var rest := report.Keys;
    while rest != {}
      invariant rest <= report.Keys
      invariant forall c :: Summary(byAccuracy, report, report.Keys - rest, c)
    {
      var k :| k in rest;
      var key := Derived(k);
      var prev := if key in byAccuracy then Some(byAccuracy[key]) else None;
      ghost var before := byAccuracy;
      byAccuracy := byAccuracy[key := MergeStatus(prev, Classify(report[k]))];
      forall c ensures Summary(byAccuracy, report, report.Keys - rest + {k}, c) {
        SummaryStep(before, byAccuracy, report, report.Keys - rest, k, c);
      }
      assert report.Keys - rest + {k} == report.Keys - (rest - {k});
      rest := rest - {k};
    }
    assert report.Keys - {} == report.Keys;
  }

  ghost predicate Decided(d: Decision, report: Report, versionMatch: bool) {
    d.reasons == Reasons(report, versionMatch, d.case_) && d.run == (d.reasons != {})
  }

  function CasesOf(decisions: seq<Decision>): seq<Case> {
    seq(|decisions|, i requires 0 <= i < |decisions| => decisions[i].case_)
  }

  /** The cases that run, or those that do not. */
  ghost function Routed(report: Report, versionMatch: bool, run: bool): Case -> bool {
    (c: Case) => (Reasons(report, versionMatch, c) != {}) == run
  }

  ghost predicate Route(decisions: seq<Decision>, report: Report, versionMatch: bool, run: bool, cases: seq<Case>) {
    && CasesOf(decisions) == Filter(Routed(report, versionMatch, run), cases)
    && (forall d :: d in decisions ==> Decided(d, report, versionMatch) && d.run == run)
  }

  lemma RouteStep(decisions: seq<Decision>, report: Report, versionMatch: bool, run: bool, cases: seq<Case>, i: nat, d: Decision)
    requires i < |cases| && d.case_ == cases[i] && Decided(d, report, versionMatch)
    requires Route(decisions, report, versionMatch, run, cases[..i])
    ensures Route(if d.run == run then decisions + [d] else decisions, report, versionMatch, run, cases[..i + 1])
  {
    hide Reasons;
    assert cases[..i + 1] == cases[..i] + [cases[i]];
    FilterSnoc(Routed(report, versionMatch, run), cases[..i], cases[i]);
    assert CasesOf(decisions + [d]) == CasesOf(decisions) + [d.case_];
  }

  lemma DecidedBy(byAccuracy: map<Case, Status>, report: Report, versionMatch: bool, d: Decision)
    requires Summary(byAccuracy, report, report.Keys, d.case_) && d.run == (d.reasons != {})
    requires d.reasons ==
             (if versionMatch then {} else {VersionMismatch}) +
             (if d.case_ !in byAccuracy then {Unmapped}
              else if byAccuracy[d.case_].Drift? then {Drifted}
              else if byAccuracy[d.case_].Skipped? then {Absent}
              else {})
    ensures Decided(d, report, versionMatch)
  {
    hide Classify, Derived;
    var c, keys := d.case_, report.Keys;
    forall status ensures Has(report, keys, c, status) ==> Mapped(report, keys, c) { HasMapped(report, keys, c, status); }
    assert Summary(byAccuracy, report, keys, c);
  }

  lemma HasMapped(report: Report, keys: set<Case>, c: Case, status: Status)
    ensures Has(report, keys, c, status) ==> Mapped(report, keys, c)
  {
    hide Classify, Derived;
  }

  method ComputeRunSet(cases: seq<Case>, report: Report, versionMatch: bool)
    returns (runSet: seq<Decision>, skipSet: seq<Decision>)
    ensures Route(runSet, report, versionMatch, true, cases)
    ensures Route(skipSet, report, versionMatch, false, cases)
  {
    hide Summary, Decided, Reasons, Route;
    var byAccuracy := MergeResults(report);
    runSet, skipSet := [], [];
    RouteNothing(report, versionMatch, true, cases);
    RouteNothing(report, versionMatch, false, cases);
    for i := 0 to |cases|
      invariant Route(runSet, report, versionMatch, true, cases[..i])
      invariant Route(skipSet, report, versionMatch, false, cases[..i])
    {
      var reasons: set<Reason> := {};
      if !versionMatch {
        reasons := reasons + {VersionMismatch};
      }
      var status := if cases[i] in byAccuracy then Some(byAccuracy[cases[i]]) else None;
      if status.None? {
        reasons := reasons + {Unmapped};
      } else if status.value.Drift? {
        reasons := reasons + {Drifted};
      } else if status.value.Skipped? {
        reasons := reasons + {Absent};
      }
      var decision := Decision(cases[i], reasons != {}, reasons);
      DecidedBy(byAccuracy, report, versionMatch, decision);
      RouteStep(runSet, report, versionMatch, true, cases, i, decision);
      RouteStep(skipSet, report, versionMatch, false, cases, i, decision);
      if decision.run {
        runSet := runSet + [decision];
      } else {
        skipSet := skipSet + [decision];
      }
    }
    assert cases[..|cases|] == cases;
  }

  /** The two sets part the cases, in their order, by whether their skipping is justified. */
  method RunGate(cases: seq<Case>, report: Report, current: ToolVersions, manifest: ToolVersions)
    returns (runSet: seq<Decision>, skipSet: seq<Decision>)
    ensures Route(runSet, report, current.Matches(manifest), true, cases)
    ensures Route(skipSet, report, current.Matches(manifest), false, cases)
    ensures forall c :: c in cases ==> (c in CasesOf(skipSet) <==> MaySkip(report, current, manifest, c))
    ensures forall c :: c in cases ==> (c in CasesOf(runSet) <==> !MaySkip(report, current, manifest, c))
    ensures forall op, variant, name :: TierFree(op) && IsVariant(variant) && AccuracyCase(op, variant, name) in cases ==>
              SkippedBySnapshots(report, current, manifest, skipSet, op, variant, name)
  {
    runSet, skipSet := ComputeRunSet(cases, report, current.Matches(manifest));
    hide Route, MaySkip, TierFree, IsVariant, AccuracyCase, SkippedBySnapshots;
    forall op, variant, name | TierFree(op) && IsVariant(variant) && AccuracyCase(op, variant, name) in cases
      ensures SkippedBySnapshots(report, current, manifest, skipSet, op, variant, name)
    {
      SkippedByItsOwnSnapshots(cases, report, current, manifest, skipSet, op, variant, name);
    }
    forall c ensures c in CasesOf(runSet) <==> c in cases && !MaySkip(report, current, manifest, c) {
      RoutedExactly(runSet, cases, report, current, manifest, true, c);
    }
    forall c ensures c in CasesOf(skipSet) <==> c in cases && MaySkip(report, current, manifest, c) {
      RoutedExactly(skipSet, cases, report, current, manifest, false, c);
    }
  }

  lemma RoutedExactly(decisions: seq<Decision>, cases: seq<Case>, report: Report, current: ToolVersions, manifest: ToolVersions,
                      run: bool, c: Case)
    requires Route(decisions, report, current.Matches(manifest), run, cases)
    ensures c in CasesOf(decisions) <==> c in cases && MaySkip(report, current, manifest, c) != run
  {
    hide Decided, Reasons, MaySkip;
    SkippedExactlyWhenProved(report, current, manifest, c);
    FilterMembers(Routed(report, current.Matches(manifest), run), cases);
  }

  lemma RouteNothing(report: Report, versionMatch: bool, run: bool, cases: seq<Case>)
    ensures Route([], report, versionMatch, run, cases[..0])
  {
  }

  // ---------------------------------------------------------------- the decision for one operator

  ghost predicate TierFree(op: string) { op != "" && forall i :: i < |op| ==> !HasTier(op, i) }

  function AccuracyCase(op: string, variant: string, name: string): Case { Case(AccuracySuite(op, variant), name) }

  function SnapshotCase(op: string, tier: string, variant: string, name: string): Case {
    Case(SnapshotSuite(op, tier, variant), name)
  }

  lemma PairedCase(op: string, tier: string, variant: string, name: string)
    requires TierFree(op) && IsTier(tier) && IsVariant(variant)
    ensures Derived(SnapshotCase(op, tier, variant, name)) == AccuracyCase(op, variant, name)
  {
    hide DeriveAccuracySuite, SnapshotSuite, AccuracySuite, HasTier;
    PairedExactlyWithoutTier(op, tier, variant);
  }

  /**
   When the only results for a test name are those of the two snapshot suites of its operator, the
   accuracy case of that name is skipped exactly when all versions are known and equal, there is at
   least one of these results, and each completed without failures.
   */
  ghost predicate SkippedBySnapshots(report: Report, current: ToolVersions, manifest: ToolVersions, skipSet: seq<Decision>,
                                     op: string, variant: string, name: string) {
    var builder, session := SnapshotCase(op, OpBuilder, variant, name), SnapshotCase(op, Session, variant, name);
    (forall k :: k in report && k.name == name ==> k == builder || k == session) ==>
    (AccuracyCase(op, variant, name) in CasesOf(skipSet) <==>
     && current.qairt.Some? && current.ort.Some? && current == manifest
     && (builder in report || session in report)
     && (forall k :: k in report && k.name == name ==>
          report[k].failures == [] && report[k].result == Some("COMPLETED") && report[k].status != Some("NOTRUN")))
  }

  lemma SkippedByItsOwnSnapshots(cases: seq<Case>, report: Report, current: ToolVersions, manifest: ToolVersions,
                                 skipSet: seq<Decision>, op: string, variant: string, name: string)
    requires TierFree(op) && IsVariant(variant) && AccuracyCase(op, variant, name) in cases
    requires Route(skipSet, report, current.Matches(manifest), false, cases)
    ensures SkippedBySnapshots(report, current, manifest, skipSet, op, variant, name)
  {
    hide DeriveAccuracySuite, SnapshotSuite, AccuracySuite, TierFree, IsVariant, Route;
    var c := AccuracyCase(op, variant, name);
    RoutedExactly(skipSet, cases, report, current, manifest, false, c);
    PairedCase(op, OpBuilder, variant, name);
    PairedCase(op, Session, variant, name);
  }

  /** And the reasons that such a case is given are these four, each exactly when it applies. */
  lemma ReasonsOfItsOwnSnapshots(report: Report, current: ToolVersions, manifest: ToolVersions, op: string, variant: string, name: string)
    requires TierFree(op) && IsVariant(variant)
    ensures var builder, session := SnapshotCase(op, OpBuilder, variant, name), SnapshotCase(op, Session, variant, name);
            var reasons := Reasons(report, current.Matches(manifest), AccuracyCase(op, variant, name));
            (forall k :: k in report && k.name == name ==> k == builder || k == session) ==>
            && (VersionMismatch in reasons <==> !(current.qairt.Some? && current.ort.Some? && current == manifest))
            && (Unmapped in reasons <==> builder !in report && session !in report)
            && (Drifted in reasons <==> exists k :: k in report && k.name == name && report[k].failures != [])
            && (Absent in reasons <==>
                && (forall k :: k in report && k.name == name ==> report[k].failures == [])
                && (exists k :: k in report && k.name == name && (report[k].result != Some("COMPLETED") || report[k].status == Some("NOTRUN"))))
  {
    hide DeriveAccuracySuite, SnapshotSuite, AccuracySuite, TierFree, IsVariant, Classify;
    var c := AccuracyCase(op, variant, name);
    PairedCase(op, OpBuilder, variant, name);
    PairedCase(op, Session, variant, name);
    var builder, session := SnapshotCase(op, OpBuilder, variant, name), SnapshotCase(op, Session, variant, name);
    if forall k :: k in report && k.name == name ==> k == builder || k == session {
      forall k | k in report ensures Derived(k) == c <==> k.name == name { }
      forall k | k in report
        ensures Classify(report[k]).Drift? <==> report[k].failures != []
        ensures Classify(report[k]).Skipped? <==>
                report[k].failures == [] && (report[k].result != Some("COMPLETED") || report[k].status == Some("NOTRUN"))
      {
        ClassifiedAs(report[k]);
      }
      assert Has(report, report.Keys, c, Drift) <==> exists k :: k in report && k.name == name && report[k].failures != [];
    }
  }

  lemma ClassifiedAs(tc: TestCase)
    ensures Classify(tc).Drift? <==> tc.failures != []
    ensures Classify(tc).Skipped? <==> tc.failures == [] && (tc.result != Some("COMPLETED") || tc.status == Some("NOTRUN"))
  {
    assert "COMPLETED"[0] != "SKIPPED"[0];
  }

  /** A snapshot result that did not complete without failures, under either tier, puts its accuracy case in the run set. */
  lemma UnprovedSnapshotRuns(cases: seq<Case>, report: Report, current: ToolVersions, manifest: ToolVersions,
                             runSet: seq<Decision>, op: string, tier: string, variant: string, name: string)
    requires TierFree(op) && IsTier(tier) && IsVariant(variant) && AccuracyCase(op, variant, name) in cases
    requires Route(runSet, report, current.Matches(manifest), true, cases)
    ensures var k := SnapshotCase(op, tier, variant, name);
            k in report && (report[k].failures != [] || report[k].result != Some("COMPLETED") || report[k].status == Some("NOTRUN")) ==>
            AccuracyCase(op, variant, name) in CasesOf(runSet)
  {
    hide DeriveAccuracySuite, SnapshotSuite, AccuracySuite, TierFree, IsVariant, IsTier, Route;
    RoutedExactly(runSet, cases, report, current, manifest, true, AccuracyCase(op, variant, name));
    PairedCase(op, tier, variant, name);
  }

  /** A result for another test name changes nothing for a case. */
  lemma OtherNamesDoNotMatter(report: Report, current: ToolVersions, manifest: ToolVersions, c: Case, k: Case, tc: TestCase)
    requires k.name != c.name
    ensures MaySkip(report[k := tc], current, manifest, c) <==> MaySkip(report, current, manifest, c)
    ensures Reasons(report[k := tc], current.Matches(manifest), c) == Reasons(report, current.Matches(manifest), c)
  {
    hide DeriveAccuracySuite, Proves, Classify;
    var changed := report[k := tc];
    forall j ensures j in changed && Derived(j) == c <==> j in report && Derived(j) == c { }
    forall j | j in report && Derived(j) == c ensures changed[j] == report[j] { }
    forall status ensures Has(changed, changed.Keys, c, status) <==> Has(report, report.Keys, c, status) { }
  }

  // ---------------------------------------------------------------- the filter

  function FullName(c: Case): string { c.suite + ['.'] + c.name }

  function Names(cases: seq<Case>): (names: seq<string>)
    ensures |names| == |cases| && forall i :: 0 <= i < |cases| ==> names[i] == FullName(cases[i])
  {
    seq(|cases|, i requires 0 <= i < |cases| => FullName(cases[i]))
  }

  const Sentinel := "QnnAcc_ZZZ_NoCasesSelected.None"

  function BuildGtestFilter(runSet: seq<Decision>): string {
    if runSet == [] then Sentinel else Join(Names(CasesOf(runSet)), ':')
  }

  /** The tests a filter without wildcards selects. */
  predicate Selects(filter: string, c: Case) { FullName(c) in Split(filter, ':') }

  lemma FullNameInjective(a: Case, b: Case)
    requires Free(a.suite, '.') && Free(b.suite, '.') && FullName(a) == FullName(b)
    ensures a == b
  {
    SplitAppend(a.suite, a.name, '.');
    SplitAppend(b.suite, b.name, '.');
    SplitOfFree(a.suite, '.');
    SplitOfFree(b.suite, '.');
    assert Split(FullName(a), '.')[0] == a.suite && Split(FullName(b), '.')[0] == b.suite;
    hide Split;
    assert FullName(a)[|a.suite| + 1..] == a.name && FullName(b)[|b.suite| + 1..] == b.name;
  }

  lemma SentinelAlone()
    ensures Split(Sentinel, ':') == [Sentinel]
  {
    assert ':' !in "QnnAcc_ZZZ_NoCases" && ':' !in "Selected.None";
    assert Sentinel == "QnnAcc_ZZZ_NoCases" + "Selected.None";
    SplitOfFree(Sentinel, ':');
  }

  /** Splitting the filter gives the names of the run set exactly when there are some and none has a colon. */
  lemma FilterRoundTrip(runSet: seq<Decision>)
    ensures Split(BuildGtestFilter(runSet), ':') == Names(CasesOf(runSet))
            <==> runSet != [] && AllFree(Names(CasesOf(runSet)), ':')
  {
    if runSet == [] { SentinelAlone(); }
    SplitUndoesJoin(Names(CasesOf(runSet)), ':');
  }

  ghost predicate Nameable(c: Case) { Free(c.suite, '.') && Free(FullName(c), ':') && FullName(c) != Sentinel }

  /**
   From end to end: of the known cases, the filter selects those that may not be skipped, even when
   there are none.
   */
  lemma FilterSelectsTheRunSet(cases: seq<Case>, report: Report, current: ToolVersions, manifest: ToolVersions,
                               runSet: seq<Decision>, c: Case)
    requires forall x :: x in cases ==> Nameable(x)
    requires Route(runSet, report, current.Matches(manifest), true, cases)
    requires c in cases
    ensures Selects(BuildGtestFilter(runSet), c) <==> !MaySkip(report, current, manifest, c)
  {
    hide Split, FullName, Reasons, MaySkip, Derived, Decided;
    SkippedExactlyWhenProved(report, current, manifest, c);
    var keep := Routed(report, current.Matches(manifest), true);
    var run := Filter(keep, cases);
    assert CasesOf(runSet) == run;
    FilterMembers(keep, cases);
    var names := Names(run);
    if run == [] {
      SentinelAlone();
    } else {
      forall i | 0 <= i < |run| ensures Free(names[i], ':') { assert run[i] in run; }
      SplitJoin(names, ':');
      if FullName(c) in names {
        var i :| 0 <= i < |names| && names[i] == FullName(c);
        assert run[i] in cases;
        FullNameInjective(run[i], c);
      }
    }
  }
}
