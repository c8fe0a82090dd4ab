/** Bounded widening of a job's file manifest: `evaluate_scope_amendment`
    (hyqs/pipeline/collision.py), the runner's use of it (hyqs/pipeline/runner.py) and the
    ledger it is appended to (hyqs/pipeline/store.py). */
module ScopeAmendment {
  import opened PyValues
  import opened Sorting
  import DependencyMinimizer

  const PER_CYCLE_LIMIT := 8
  const CUMULATIVE_LIMIT := 24
  const REJECTION_LIMIT := 50

  predicate AuthorizedGate(gate: string) {
    gate == "test" || gate == "lint" || gate == "security" || gate == "design_review"
  }

  /** The string policies: `normalize_scope_amendment_path`, the quote and backslash clean-up of
      a raw candidate, lower-casing, the sensitive-path and glob tests, and `fnmatch`. Every
      statement below holds for any of them. */
  datatype Policy = Policy(
    norm: string -> Option<string>, tidy: string -> string, lower: string -> string,
    sensitive: string -> bool, globbed: string -> bool, directory: string -> bool,
    glob: (string, string) -> bool)

  datatype Relation = Relation(source: string, target: string, kind: string, doubtful: bool)

  datatype GateEvent = GateEvent(stage: string, authorized: bool, gated: bool, failed: bool, outcome: string,
                                 failingPaths: seq<string>, operatorPaths: seq<string>)

  datatype Request = Request(
    event: GateEvent, plan: seq<string>, frozen: seq<string>, tracked: seq<string>, diff: seq<string>,
    evidence: seq<(string, seq<string>)>, relations: seq<Relation>, history: seq<string>, active: seq<seq<string>>)

  datatype Accepted = Accepted(path: string, provenance: set<string>)
  datatype Rejected = Rejected(candidate: string, reason: string)
  datatype Decision = Decision(accepted: seq<Accepted>, rejected: seq<Rejected>)

  // ---- what the inputs denote ------------------------------------------------------

  predicate IsAuthorized(policy: Policy, e: GateEvent) {
    && AuthorizedGate(e.stage) && e.authorized && e.gated && e.failed
    && policy.lower(e.outcome) != "passed" && policy.lower(e.outcome) != "success"
  }

  function Normalized(policy: Policy, raws: seq<string>): set<string> {
    set raw | raw in raws && policy.norm(raw).Some? :: policy.norm(raw).value
  }

  /** The tag a piece of evidence leaves on its paths. */
  function EvidenceTag(policy: Policy, provenance: string): string {
    var p := policy.lower(provenance);
    if p == "ai" || p == "ai_only" || p == "model" then "ai_only_evidence"
    else if p == "speculative" then "speculative_evidence"
    else if p == "ambiguous" then "ambiguous_evidence"
    else if p in {"coverage", "coverage_paths", "import", "imports", "import_paths", "symbol", "symbols",
                  "symbol_paths"}
    then provenance
    else "ambiguous_evidence"
  }

  function Tagged(raws: seq<string>, tag: string): seq<(string, string)> {
    seq(|raws|, i requires 0 <= i < |raws| => (raws[i], tag))
  }

  function EvidenceCandidates(policy: Policy, evidence: seq<(string, seq<string>)>): seq<(string, string)> {
    if evidence == [] then []
    else Tagged(evidence[0].1, EvidenceTag(policy, evidence[0].0)) + EvidenceCandidates(policy, evidence[1..])
  }

  function RawCandidates(policy: Policy, req: Request): seq<(string, string)> {
    Tagged(req.event.failingPaths, req.event.stage + ":failure_path") + EvidenceCandidates(policy, req.evidence)
  }

  /** A candidate is filed under its canonical path, or under its tidied text. */
  function Key(policy: Policy, raw: string): string {
    var text := policy.tidy(raw);
    if policy.norm(text).Some? then policy.norm(text).value else text
  }

  function Keys(policy: Policy, candidates: seq<(string, string)>): seq<string> {
    SortUnique(StringLess, seq(|candidates|, i requires 0 <= i < |candidates| => Key(policy, candidates[i].0)))
  }

  function Tags(policy: Policy, candidates: seq<(string, string)>, key: string): set<string> {
    set c | c in candidates && Key(policy, c.0) == key :: c.1
  }

  function Provenance(policy: Policy, req: Request, key: string): set<string> {
    var tags := Tags(policy, RawCandidates(policy, req), key);
    var safe := policy.norm(key);
    if safe.Some? && safe.value in Normalized(policy, req.diff) then tags + {"current_diff"} else tags
  }

  function Direct(policy: Policy, req: Request): set<string> { Normalized(policy, req.event.failingPaths) }

  function Roots(policy: Policy, req: Request): set<string> {
    Direct(policy, req) + Normalized(policy, req.plan) + Normalized(policy, req.frozen)
  }

  /** The roots a path is the stated companion of, with the kind of relation. */
  function RootedBy(policy: Policy, req: Request, path: string): set<(string, string)> {
    set r | r in req.relations && !r.doubtful && policy.norm(r.target) == Some(path)
            && policy.norm(r.source).Some? && policy.norm(r.source).value in Roots(policy, req)
          :: (policy.norm(r.source).value, r.kind)
  }

  predicate ConflictsWithActive(policy: Policy, req: Request, path: string) {
    exists m :: m in req.active && DependencyMinimizer.CheckManifestConflict(policy.glob, [path], m)
  }

  // ---- one candidate --------------------------------------------------------------

  datatype Verdict = Eligible(item: Accepted) | Refused(why: Rejected)

  function Judge(policy: Policy, req: Request, raw: string): Verdict {
    var tags := Provenance(policy, req, raw);
    var norm := policy.norm(raw);
    if policy.globbed(raw) then Refused(Rejected(raw, "glob_path"))
    else if norm.None? then Refused(Rejected(raw, if policy.directory(raw) then "directory_path" else "unsafe_path"))
    else
      var safe := norm.value;
      if !IsAuthorized(policy, req.event) then Refused(Rejected(safe, "unauthorized_event"))
      else if tags <= {"ai_only_evidence", "current_diff"} then Refused(Rejected(safe, "ai_only_evidence"))
      else if tags <= {"ambiguous_evidence", "speculative_evidence", "current_diff"} then
        Refused(Rejected(safe, if "ambiguous_evidence" in tags then "ambiguous_evidence" else "speculative_evidence"))
      else if safe !in Normalized(policy, req.tracked) then Refused(Rejected(safe, "untracked_path"))
      else if safe in Normalized(policy, req.frozen) || safe in Normalized(policy, req.history) then
        Refused(Rejected(safe, "repeated_path"))
      else if policy.sensitive(safe) && safe !in Normalized(policy, req.plan) &&
              safe !in Normalized(policy, req.event.operatorPaths) then
        Refused(Rejected(safe, "sensitive_path"))
      else if ConflictsWithActive(policy, req, safe) then Refused(Rejected(safe, "manifest_conflict"))
      else if safe !in Direct(policy, req) && RootedBy(policy, req, safe) == {} then
        Refused(Rejected(safe, "unrelated_product_area"))
      else
        var rooted := RootedBy(policy, req, safe);
        Eligible(Accepted(safe, tags + set r | r in rooted :: r.1 + ":" + r.0))
  }

  function EligibleOf(policy: Policy, req: Request, keys: seq<string>): seq<Accepted> {
    if keys == [] then []
    else
      var init := EligibleOf(policy, req, keys[..|keys| - 1]);
      var v := Judge(policy, req, keys[|keys| - 1]);
      if v.Eligible? then init + [v.item] else init
  }

  function RefusedOf(policy: Policy, req: Request, keys: seq<string>): seq<Rejected> {
    if keys == [] then []
    else
      var init := RefusedOf(policy, req, keys[..|keys| - 1]);
      var v := Judge(policy, req, keys[|keys| - 1]);
      if v.Refused? then init + [v.why] else init
  }

  // ---- the decision ----------------------------------------------------------------

  predicate PathLess(a: Accepted, b: Accepted) { StringLess(a.path, b.path) }

  predicate RejectedLess(a: Rejected, b: Rejected) {
    StringLess(a.candidate, b.candidate) || (a.candidate == b.candidate && StringLess(a.reason, b.reason))
  }

  function Remaining(policy: Policy, req: Request, cumulative: int): int {
    var left := cumulative - |Normalized(policy, req.history)|;
    if left < 0 then 0 else left
  }

  function AcceptedLimit(policy: Policy, req: Request, perCycle: int, cumulative: int): int {
    var remaining := Remaining(policy, req, cumulative);
    if perCycle < remaining then perCycle else remaining
  }

  function LimitCode(policy: Policy, req: Request, perCycle: int, cumulative: int): string {
    if Remaining(policy, req, cumulative) <= perCycle then "cumulative_limit" else "per_cycle_limit"
  }

  predicate IsLimitCode(reason: string) { reason == "cumulative_limit" || reason == "per_cycle_limit" }

  function Surplus(items: seq<Accepted>, code: string): seq<Rejected> {
    seq(|items|, i requires 0 <= i < |items| => Rejected(items[i].path, code))
  }

  function Ranked(policy: Policy, req: Request): seq<Accepted> {
    StableSort(PathLess, EligibleOf(policy, req, Keys(policy, RawCandidates(policy, req))))
  }

  function Cut<T>(s: seq<T>, n: int): seq<T>
    requires n >= 0
  {
    if n < |s| then s[..n] else s
  }

  /** Every rejection, in the order they are reported, before the report is cut to 50. */
  function AllRejected(policy: Policy, req: Request, perCycle: int, cumulative: int): seq<Rejected>
    requires perCycle >= 0 && cumulative >= 0
  {
    var ranked := Ranked(policy, req);
    var n := |Cut(ranked, AcceptedLimit(policy, req, perCycle, cumulative))|;
    StableSort(RejectedLess, RefusedOf(policy, req, Keys(policy, RawCandidates(policy, req))) +
                             Surplus(ranked[n..], LimitCode(policy, req, perCycle, cumulative)))
  }

  function Decide(policy: Policy, req: Request, perCycle: int, cumulative: int): Decision
    requires perCycle >= 0 && cumulative >= 0
  {
    Decision(Cut(Ranked(policy, req), AcceptedLimit(policy, req, perCycle, cumulative)),
             Cut(AllRejected(policy, req, perCycle, cumulative), REJECTION_LIMIT))
  }

  method NormalizedSet(policy: Policy, raws: seq<string>) returns (paths: set<string>)
    ensures paths == Normalized(policy, raws)
  {
    paths := {};
    for i := 0 to |raws|
      invariant paths == Normalized(policy, raws[..i])
    {
      assert raws[..i + 1] == raws[..i] + [raws[i]];
      if policy.norm(raws[i]).Some? {
        paths := paths + {policy.norm(raws[i]).value};
      }
    }
    assert raws[..|raws|] == raws;
  }

  /** The candidate loop. */
  method JudgeAll(policy: Policy, req: Request, order: seq<string>)
    returns (eligible: seq<Accepted>, rejected: seq<Rejected>)
    ensures eligible == EligibleOf(policy, req, order) && rejected == RefusedOf(policy, req, order)
  {
    eligible, rejected := [], [];
    for i := 0 to |order|
      invariant eligible == EligibleOf(policy, req, order[..i])
      invariant rejected == RefusedOf(policy, req, order[..i])
    {
      assert order[..i + 1][..i] == order[..i];
      match Judge(policy, req, order[i]) {
        case Eligible(item) => eligible := eligible + [item];
        case Refused(why) => rejected := rejected + [why];
      }
    }
    assert order[..|order|] == order;
  }

  method RejectSurplus(items: seq<Accepted>, code: string) returns (surplus: seq<Rejected>)
    ensures surplus == Surplus(items, code)
  {
    surplus := [];
    for i := 0 to |items|
      invariant surplus == Surplus(items[..i], code)
    {
      surplus := surplus + [Rejected(items[i].path, code)];
    }
    assert items[..|items|] == items;
  }

  method EvaluateScopeAmendment(policy: Policy, req: Request, perCycle: int, cumulative: int)
    returns (r: Option<Decision>)
    ensures r.None? <==> perCycle < 0 || cumulative < 0
    ensures r.Some? ==> r.value == Decide(policy, req, perCycle, cumulative)
  {
    if perCycle < 0 || cumulative < 0 {
      return None;
    }
    var eligible, rejected := JudgeAll(policy, req, Keys(policy, RawCandidates(policy, req)));
    var history := NormalizedSet(policy, req.history);
    var remaining := if cumulative - |history| < 0 then 0 else cumulative - |history|;
    var acceptedLimit := if perCycle < remaining then perCycle else remaining;
    var ranked := StableSort(PathLess, eligible);
    var accepted := Cut(ranked, acceptedLimit);
    var code := if remaining <= perCycle then "cumulative_limit" else "per_cycle_limit";
    var surplus := RejectSurplus(ranked[|accepted|..], code);
    var bounded := StableSort(RejectedLess, rejected + surplus);
    r := Some(Decision(accepted, Cut(bounded, REJECTION_LIMIT)));
  }

  // ---- what a decision grants ---------------------------------------------------------

  /** Everything the policy asks of a path before it may be added. */
  ghost predicate Justified(policy: Policy, req: Request, path: string) {
    && IsAuthorized(policy, req.event)
    && path in Normalized(policy, req.tracked)
    && path !in Normalized(policy, req.frozen) && path !in Normalized(policy, req.history)
    && (policy.sensitive(path) ==>
          path in Normalized(policy, req.plan) || path in Normalized(policy, req.event.operatorPaths))
    && !ConflictsWithActive(policy, req, path)
    && (path in Direct(policy, req) ||
        exists r :: r in req.relations && Roots(policy, req) != {} && IsCompanion(policy, req, r, path))
  }

  ghost predicate IsCompanion(policy: Policy, req: Request, r: Relation, path: string) {
    && !r.doubtful && policy.norm(r.target) == Some(path)
    && policy.norm(r.source).Some? && policy.norm(r.source).value in Roots(policy, req)
  }

  lemma EligibleIsJustified(policy: Policy, req: Request, raw: string)
    requires Judge(policy, req, raw).Eligible?
    ensures Justified(policy, req, Judge(policy, req, raw).item.path)
  {
    var path := Judge(policy, req, raw).item.path;
    if path !in Direct(policy, req) {
      var rooted := RootedBy(policy, req, path);
      var k :| k in rooted;
      var r :| r in req.relations && !r.doubtful && policy.norm(r.target) == Some(path)
            && policy.norm(r.source).Some? && policy.norm(r.source).value in Roots(policy, req)
            && k == (policy.norm(r.source).value, r.kind);
      assert IsCompanion(policy, req, r, path);
    }
  }

  lemma {:induction false} EligibleItems(policy: Policy, req: Request, keys: seq<string>, item: Accepted)
    requires item in EligibleOf(policy, req, keys)
    ensures exists raw :: raw in keys && Judge(policy, req, raw) == Eligible(item)
  {
    var n := |keys| - 1;
    assert keys == keys[..n] + [keys[n]];
    var v := Judge(policy, req, keys[n]);
    if v != Eligible(item) {
      EligibleItems(policy, req, keys[..n], item);
      var raw :| raw in keys[..n] && Judge(policy, req, raw) == Eligible(item);
      assert raw in keys;
    } else {
      assert keys[n] in keys;
    }
  }

  lemma PathLessIsWeakOrder()
    ensures WeakOrder(PathLess)
  {
    hide StringLess;
    forall x, y | PathLess(x, y) ensures !PathLess(y, x) { StringLessAsymmetric(x.path, y.path); }
    forall x, y, z | PathLess(x, z) ensures PathLess(x, y) || PathLess(y, z) {
      StringLessSplits(x.path, y.path, z.path);
    }
  }

  lemma RejectedLessNegativelyTransitive(x: Rejected, y: Rejected, z: Rejected)
    requires RejectedLess(x, z)
    ensures RejectedLess(x, y) || RejectedLess(y, z)
  {
    StringLessSplits(x.candidate, y.candidate, z.candidate);
    if x.candidate == z.candidate {
      StringLessSplits(x.reason, y.reason, z.reason);
      StringLessConnected(x.candidate, y.candidate);
    }
  }

  lemma StringLessSplits(x: string, y: string, z: string)
    ensures StringLess(x, z) ==> StringLess(x, y) || StringLess(y, z)
    ensures x == z ==> y == x || StringLess(x, y) || StringLess(y, z)
  {
    StringLessConnected(x, y);
    if StringLess(x, z) && StringLess(y, x) { StringLessTransitive(y, x, z); }
  }

  lemma RejectedLessAsymmetric(x: Rejected, y: Rejected)
    requires RejectedLess(x, y)
    ensures !RejectedLess(y, x)
  {
    if StringLess(x.candidate, y.candidate) {
      StringLessAsymmetric(x.candidate, y.candidate);
      StringLessIrreflexive(x.candidate);
    } else {
      StringLessAsymmetric(x.reason, y.reason);
      StringLessIrreflexive(x.candidate);
    }
  }

  lemma RejectedLessIsWeakOrder()
    ensures WeakOrder(RejectedLess)
  {
    forall x, y | RejectedLess(x, y) ensures !RejectedLess(y, x) { RejectedLessAsymmetric(x, y); }
    forall x, y, z | RejectedLess(x, z) ensures RejectedLess(x, y) || RejectedLess(y, z) {
      RejectedLessNegativelyTransitive(x, y, z);
    }
  }

  /** A decision never exceeds either limit, grants in path order, and every path it grants is
      tracked, new, not sensitive unless planned or operator-authorised, free of conflicts with
      active manifests, and either failing itself or a stated companion of a failing, planned or
      frozen path; an unauthorised event grants nothing. */
  lemma DecisionIsBoundedAndJustified(policy: Policy, req: Request, perCycle: int, cumulative: int)
    requires perCycle >= 0 && cumulative >= 0
    ensures var d := Decide(policy, req, perCycle, cumulative);
            && |d.accepted| <= perCycle
            && (d.accepted != [] ==> |Normalized(policy, req.history)| + |d.accepted| <= cumulative)
            && |d.rejected| <= REJECTION_LIMIT
            && Sorted(PathLess, d.accepted)
            && (forall a :: a in d.accepted ==> Justified(policy, req, a.path))
            && (!IsAuthorized(policy, req.event) ==> d.accepted == [])
  {
    var keys := Keys(policy, RawCandidates(policy, req));
    var eligible := EligibleOf(policy, req, keys);
    var d := Decide(policy, req, perCycle, cumulative);
    PathLessIsWeakOrder();
    StableSortSorts(PathLess, eligible);
    forall a | a in d.accepted ensures Justified(policy, req, a.path) {
      assert a in Ranked(policy, req);
      assert a in multiset(Ranked(policy, req));
      assert a in eligible;
      EligibleItems(policy, req, keys, a);
      var raw :| raw in keys && Judge(policy, req, raw) == Eligible(a);
      EligibleIsJustified(policy, req, raw);
    }
    if d.accepted != [] {
      assert d.accepted[0] in d.accepted;
    }
  }

  /** Nothing eligible is lost: a candidate the policy finds eligible is granted, or the limit
      was reached by candidates that come no later in path order and it is listed for that. */
  lemma EligibleIsGrantedOrLimited(policy: Policy, req: Request, perCycle: int, cumulative: int, raw: string)
    requires perCycle >= 0 && cumulative >= 0
    requires raw in Keys(policy, RawCandidates(policy, req)) && Judge(policy, req, raw).Eligible?
    ensures var item := Judge(policy, req, raw).item;
            var d := Decide(policy, req, perCycle, cumulative);
            || item in d.accepted
            || (&& |d.accepted| == AcceptedLimit(policy, req, perCycle, cumulative)
                && (forall a :: a in d.accepted ==> !PathLess(item, a))
                && Rejected(item.path, LimitCode(policy, req, perCycle, cumulative)) in
                   AllRejected(policy, req, perCycle, cumulative))
  {
    var keys := Keys(policy, RawCandidates(policy, req));
    var item := Judge(policy, req, raw).item;
    EligibleIsListed(policy, req, keys, raw);
    var at := RankOf(policy, req, item);
    var accepted := Decide(policy, req, perCycle, cumulative).accepted;
    if at < |accepted| {
      assert accepted[at] == item;
    } else {
      RankedBefore(policy, req, at);
      forall a | a in accepted ensures !PathLess(item, a) {
        var i :| 0 <= i < |accepted| && accepted[i] == a;
        assert Ranked(policy, req)[i] == a;
      }
      SurplusIsListed(policy, req, perCycle, cumulative, at);
    }
  }

  lemma RankOf(policy: Policy, req: Request, item: Accepted) returns (at: nat)
    requires item in EligibleOf(policy, req, Keys(policy, RawCandidates(policy, req)))
    ensures at < |Ranked(policy, req)| && Ranked(policy, req)[at] == item
  {
    var eligible := EligibleOf(policy, req, Keys(policy, RawCandidates(policy, req)));
    PathLessIsWeakOrder();
    StableSortSorts(PathLess, eligible);
    assert item in multiset(eligible);
    assert item in multiset(Ranked(policy, req));
    at :| at < |Ranked(policy, req)| && Ranked(policy, req)[at] == item;
  }

  lemma RankedBefore(policy: Policy, req: Request, at: nat)
    requires at < |Ranked(policy, req)|
    ensures forall i :: 0 <= i < at ==> !PathLess(Ranked(policy, req)[at], Ranked(policy, req)[i])
  {
    PathLessIsWeakOrder();
    StableSortSorts(PathLess, EligibleOf(policy, req, Keys(policy, RawCandidates(policy, req))));
  }

  lemma SortedContents(items: seq<Rejected>, x: Rejected)
    ensures x in StableSort(RejectedLess, items) <==> x in items
  {
    RejectedLessIsWeakOrder();
    StableSortSorts(RejectedLess, items);
    assert x in items <==> x in multiset(items);
    assert x in StableSort(RejectedLess, items) <==> x in multiset(StableSort(RejectedLess, items));
  }

  lemma SurplusIsListed(policy: Policy, req: Request, perCycle: int, cumulative: int, at: nat)
    requires perCycle >= 0 && cumulative >= 0
    requires AcceptedLimit(policy, req, perCycle, cumulative) <= at < |Ranked(policy, req)|
    ensures Rejected(Ranked(policy, req)[at].path, LimitCode(policy, req, perCycle, cumulative))
              in AllRejected(policy, req, perCycle, cumulative)
  {
    hide RefusedOf, Ranked, LimitCode, Keys, RawCandidates, StableSort;
    var ranked := Ranked(policy, req);
    var n := |Cut(ranked, AcceptedLimit(policy, req, perCycle, cumulative))|;
    var surplus := Surplus(ranked[n..], LimitCode(policy, req, perCycle, cumulative));
    var refused := RefusedOf(policy, req, Keys(policy, RawCandidates(policy, req)));
    SurplusHas(ranked, n, at, LimitCode(policy, req, perCycle, cumulative));
    SortedContents(refused + surplus, surplus[at - n]);
  }

  lemma SurplusHas(ranked: seq<Accepted>, n: nat, at: nat, code: string)
    requires n <= at < |ranked|
    ensures Surplus(ranked[n..], code)[at - n] == Rejected(ranked[at].path, code)
    ensures Surplus(ranked[n..], code)[at - n] in Surplus(ranked[n..], code)
  {
  }

  lemma {:induction false} EligibleIsListed(policy: Policy, req: Request, keys: seq<string>, raw: string)
    requires raw in keys && Judge(policy, req, raw).Eligible?
    ensures Judge(policy, req, raw).item in EligibleOf(policy, req, keys)
  {
    var n := |keys| - 1;
    assert keys == keys[..n] + [keys[n]];
    if raw != keys[n] {
      EligibleIsListed(policy, req, keys[..n], raw);
    }
  }

  // ---- the runner: all or nothing once a limit shows -----------------------------------

  predicate ShowsLimit(rejected: seq<Rejected>) {
    exists r :: r in rejected && IsLimitCode(r.reason)
  }

  function Withdrawn(accepted: seq<Accepted>): seq<Rejected> {
    seq(|accepted|, i requires 0 <= i < |accepted| => Rejected(accepted[i].path, "limit_rejected_cycle"))
  }

  /** A cycle in which a limit rejection is reported accepts nothing. */
  function RunnerDecision(d: Decision): Decision {
    if ShowsLimit(d.rejected) then Decision([], d.rejected + Withdrawn(d.accepted)) else d
  }
}
