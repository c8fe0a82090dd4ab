/** The comparison of two audits and the ratchet (hyqs/pipeline/npm_audit.py), told from the records
    themselves: which of them count, how severe they are, and what is said about each. */
module AuditVerdicts {
  import opened PyValues
  import opened Sorting
  import opened AuditRatchet

  // ---- severities and the records that count ---------------------------------------------------

  const SEVERITIES := ["info", "low", "moderate", "high", "critical"]

  /** The first is named before the second. */
  ghost predicate IsMilder(a: string, b: string) {
    exists i, j :: 0 <= i < j < 5 && SEVERITIES[i] == a && SEVERITIES[j] == b
  }

  ghost predicate IsSeverity(a: string) { a in SEVERITIES }

  lemma SeveritiesAre(a: string)
    ensures a in SEVERITY <==> IsSeverity(a)
    ensures forall i :: 0 <= i < 5 ==> SEVERITIES[i] in SEVERITY && SEVERITY[SEVERITIES[i]] == i
  {
    assert SEVERITIES[0] == "info" && SEVERITIES[1] == "low" && SEVERITIES[2] == "moderate";
    assert SEVERITIES[3] == "high" && SEVERITIES[4] == "critical";
  }

  lemma MilderIff(a: string, b: string)
    requires a in SEVERITY && b in SEVERITY
    ensures IsMilder(a, b) <==> SEVERITY[a] < SEVERITY[b]
  {
    SeveritiesAre(a);
    SeveritiesAre(b);
    var i :| 0 <= i < 5 && SEVERITIES[i] == a;
    var j :| 0 <= j < 5 && SEVERITIES[j] == b;
    if SEVERITY[a] < SEVERITY[b] { assert i < j; }
  }

  ghost predicate IsLast(records: seq<Record>, k: nat, r: Record) {
    k < |records| && records[k] == r && forall j :: k < j < |records| ==> records[j].id != r.id
  }

  /** Of the records with one identity the last counts. */
  ghost predicate Counts(records: seq<Record>, r: Record) { exists k: nat :: IsLast(records, k, r) }

  lemma {:induction false} EffectiveIff(records: seq<Record>, r: Record)
    ensures r.id in Effective(records) && Effective(records)[r.id] == r <==> Counts(records, r)
  {
    if records != [] {
      EffectiveIff(records[..|records| - 1], r);
      LastCounts(records, r);
    }
  }

  lemma LastCounts(records: seq<Record>, r: Record)
    requires records != []
    ensures var n := |records| - 1;
            Counts(records, r) <==> if records[n].id == r.id then records[n] == r else Counts(records[..n], r)
  {
    var n: nat := |records| - 1;
    if records[n] == r { assert IsLast(records, n, r); }
    if records[n].id != r.id {
      if k: nat :| IsLast(records, k, r) { assert IsLast(records[..n], k, r); }
      if k: nat :| IsLast(records[..n], k, r) {
        forall j | k < j < |records| ensures records[j].id != r.id {
          if j < n { assert records[..n][j] == records[j]; }
        }
        assert IsLast(records, k, r);
      }
    }
  }

  /** The record that counts for an identity, if there is one. */
  ghost predicate Speaks(records: seq<Record>, id: Identity, r: Option<Record>) {
    match r
    case Some(x) => x.id == id && Counts(records, x)
    case None => forall x :: x in records ==> x.id != id
  }

  lemma SpeaksIff(records: seq<Record>, id: Identity, r: Option<Record>)
    ensures At(Effective(records), id) == r <==> Speaks(records, id, r)
  {
    hide Effective;
    EffectiveHas(records, id);
    if r.Some? { EffectiveIff(records, r.value); }
    if id in Effective(records) { EffectiveIff(records, Effective(records)[id]); }
  }

  lemma {:induction false} EffectiveHas(records: seq<Record>, id: Identity)
    ensures id in Effective(records) <==> exists x :: x in records && x.id == id
  {
    if records != [] {
      EffectiveHas(records[..|records| - 1], id);
      assert records == records[..|records| - 1] + [records[|records| - 1]];
    }
  }

  // ---- what is said about one identity ---------------------------------------------------------

  ghost predicate GotWorse(was: Record, now: Record) {
    IsMilder(was.severity, now.severity) || (was.scope == Development && now.scope == Production)
  }

  ghost predicate IsCritical(r: Record) { r.severity == "critical" && r.scope == Production && r.exploitable }

  /** What is found of an identity on either side, and what the policy makes of it. */
  ghost predicate Tells(policy: Policy, f: Finding) {
    match (f.baseline, f.candidate)
    case (None, None) => false
    case (None, Some(now)) =>
      && f.status == Introduced && f.reason == "advisory/path introduced by candidate"
      && (f.blocks <==> !IsMilder(now.severity, policy.threshold))
    case (Some(was), None) =>
      f.status == Removed && f.reason == "advisory/path removed by candidate" && !f.blocks
    case (Some(was), Some(now)) =>
      if GotWorse(was, now) then
        && f.status == Worsened
        && f.reason == (if IsMilder(was.severity, now.severity) then "severity increased"
                        else "dependency scope changed from development to production")
        && (f.blocks <==> !IsMilder(now.severity, policy.threshold))
      else
        && f.status == UnchangedBaseline && f.reason == "present at the same or lower risk in baseline"
        && (f.blocks <==> policy.blockCriticalProductionBaseline && IsCritical(now))
  }

  lemma FindingTells(before: Option<Record>, after: Option<Record>, policy: Policy)
    requires Known(before) && Known(after) && policy.threshold in SEVERITY && (before.Some? || after.Some?)
    ensures var f := FindingFor(before, after, policy);
            f.baseline == before && f.candidate == after && Tells(policy, f)
  {
    hide SEVERITY, IsMilder;
    if after.Some? {
      MilderIff(after.value.severity, policy.threshold);
      if before.Some? { MilderIff(before.value.severity, after.value.severity); }
    }
  }

  /** By advisory, then package, then path. */
  ghost predicate Precedes(a: Identity, b: Identity) {
    || ComesFirst(a.advisory, b.advisory)
    || (a.advisory == b.advisory && ComesFirst(a.package, b.package))
    || (a.advisory == b.advisory && a.package == b.package && ComesFirst(a.path, b.path))
  }

  lemma PrecedesIff(a: Identity, b: Identity)
    ensures IdentityLess(a, b) <==> Precedes(a, b)
  {
    hide StringLess, ComesFirst;
    StringLessIff(a.advisory, b.advisory);
    StringLessIff(a.package, b.package);
    StringLessIff(a.path, b.path);
    StringLessIrreflexive(a.advisory);
    StringLessIrreflexive(a.package);
  }

  /** The records of a report stand in that order. */
  lemma RecordsAreInOrder(env: Env)
    requires Parsed(env).AuditResult?
    ensures var rs := Parsed(env).records; forall i, j :: 0 <= i < j < |rs| ==> !Precedes(rs[j].id, rs[i].id)
  {
    hide Parsed, IdentityLess, Precedes;
    ParsedIsCollected(env);
    var rs := Parsed(env).records;
    forall i, j | 0 <= i < j < |rs| ensures !Precedes(rs[j].id, rs[i].id) { PrecedesIff(rs[j].id, rs[i].id); }
  }

  ghost predicate IsAbout(f: Finding, baseline: seq<Record>, candidate: seq<Record>, id: Identity) {
    Speaks(baseline, id, f.baseline) && Speaks(candidate, id, f.candidate)
  }

  ghost predicate IsNamed(records: seq<Record>, id: Identity) { exists x :: x in records && x.id == id }

  /** With attribution on both sides: one finding for every identity that a record of either side
      has, in order, and each says what the records that count make of it. */
  lemma FindingsAre(baseline: AuditResult, candidate: AuditResult, policy: Policy, findings: seq<Finding>)
    returns (ids: seq<Identity>)
    requires Comparable(baseline, candidate, policy) && IsClassified(baseline, candidate, policy, findings)
    requires baseline.attributable && candidate.attributable
    ensures |ids| == |findings| && forall i, j :: 0 <= i < j < |ids| ==> Precedes(ids[i], ids[j])
    ensures forall id :: id in ids <==> IsNamed(baseline.records, id) || IsNamed(candidate.records, id)
    ensures forall i :: 0 <= i < |findings| ==>
              IsAbout(findings[i], baseline.records, candidate.records, ids[i]) && Tells(policy, findings[i])
  {
    hide Effective, FindingFor, Tells, Speaks, IdentityLess, Precedes, SeveritiesKnown;
    var base, cand := Effective(baseline.records), Effective(candidate.records);
    ids :| IsComparison(baseline, candidate, policy, ids, findings);
    forall i, j | 0 <= i < j < |ids| ensures Precedes(ids[i], ids[j]) { PrecedesIff(ids[i], ids[j]); }
    forall id ensures id in ids <==> IsNamed(baseline.records, id) || IsNamed(candidate.records, id) {
      EffectiveHas(baseline.records, id);
      EffectiveHas(candidate.records, id);
    }
    forall i | 0 <= i < |findings|
      ensures IsAbout(findings[i], baseline.records, candidate.records, ids[i]) && Tells(policy, findings[i])
    {
      assert ids[i] in ids;
      FindingTells(At(base, ids[i]), At(cand, ids[i]), policy);
      SpeaksIff(baseline.records, ids[i], At(base, ids[i]));
      SpeaksIff(candidate.records, ids[i], At(cand, ids[i]));
    }
  }

  /** Without attribution on either side there is one finding: it has the first record of each, and
      the candidate's error, or the baseline's when that one says nothing. */
  lemma IndeterminateIs(baseline: AuditResult, candidate: AuditResult, policy: Policy, findings: seq<Finding>)
    requires Comparable(baseline, candidate, policy) && IsClassified(baseline, candidate, policy, findings)
    requires !baseline.attributable || !candidate.attributable
    ensures |findings| == 1 && findings[0].status == Indeterminate
    ensures findings[0].blocks <==> policy.blockIndeterminate
    ensures findings[0].baseline == if baseline.records == [] then None else Some(baseline.records[0])
    ensures findings[0].candidate == if candidate.records == [] then None else Some(candidate.records[0])
    ensures var mute := {None, Some("")};
            findings[0].reason == if candidate.error !in mute then candidate.error.value
                                  else if baseline.error !in mute then baseline.error.value
                                  else "audit attribution unavailable"
  {
  }

  // ---- the ratchet on the records --------------------------------------------------------------

  /** Every record that counts and is as severe as the threshold was there before, as severe and not
      in development only. */
  ghost predicate NothingSeriousIsNew(before: seq<Record>, after: seq<Record>, policy: Policy) {
    forall now :: Counts(after, now) && !IsMilder(now.severity, policy.threshold) ==>
      exists was :: Counts(before, was) && was.id == now.id && !GotWorse(was, now)
  }

  /** No critical finding in production is kept. */
  ghost predicate NothingCriticalIsKept(before: seq<Record>, after: seq<Record>) {
    forall was, now :: Counts(before, was) && Counts(after, now) && was.id == now.id && IsCritical(now) ==>
      GotWorse(was, now)
  }

  lemma ImprovesIff(before: AuditResult, after: AuditResult, policy: Policy)
    requires Comparable(before, after, policy)
    ensures OnlyImproves(before, after, policy) <==> NothingSeriousIsNew(before.records, after.records, policy)
    ensures BaselineIsClear(before, after, policy) <==> NothingCriticalIsKept(before.records, after.records)
  {
    hide Effective, SEVERITY, IsMilder, Counts;
    var base, cand := Effective(before.records), Effective(after.records);
    forall r ensures Counts(before.records, r) <==> r.id in base && base[r.id] == r { EffectiveIff(before.records, r); }
    forall r ensures Counts(after.records, r) <==> r.id in cand && cand[r.id] == r { EffectiveIff(after.records, r); }
    forall a: string, b: string | a in SEVERITY && b in SEVERITY
      ensures IsMilder(a, b) <==> SEVERITY[a] < SEVERITY[b] { MilderIff(a, b); }
  }

  /** With attribution on both sides a candidate passes exactly when nothing serious is new and, where
      the policy asks for it, nothing critical is kept. */
  lemma PassesIff(baseline: AuditResult, candidate: AuditResult, policy: Policy, findings: seq<Finding>)
    requires Comparable(baseline, candidate, policy) && IsClassified(baseline, candidate, policy, findings)
    requires baseline.attributable && candidate.attributable
    ensures (forall f :: f in findings ==> !f.blocks) <==>
            && NothingSeriousIsNew(baseline.records, candidate.records, policy)
            && (policy.blockCriticalProductionBaseline ==>
                  NothingCriticalIsKept(baseline.records, candidate.records))
  {
    hide OnlyImproves, BaselineIsClear, NothingSeriousIsNew, NothingCriticalIsKept, IsClassified, Comparable;
    UnblockedIffOnlyImproves(baseline, candidate, policy, findings);
    ImprovesIff(baseline, candidate, policy);
  }

  /** The ratchet, over the records of a chain of trees that passed one after the other. */
  lemma NothingSeriousSlipsIn(trees: seq<AuditResult>, verdicts: seq<seq<Finding>>, policy: Policy)
    requires IsChain(trees, verdicts, policy) && verdicts != [] && policy.blockIndeterminate
    ensures trees[0].AuditResult? && trees[|verdicts|].AuditResult?
    ensures NothingSeriousIsNew(trees[0].records, trees[|verdicts|].records, policy)
  {
    hide OnlyImproves, NothingSeriousIsNew, IsLink;
    RatchetOnlyImproves(trees, verdicts, policy, |verdicts|);
    ImprovesIff(trees[0], trees[|verdicts|], policy);
  }
}
