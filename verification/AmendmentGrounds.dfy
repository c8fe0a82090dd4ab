/** Why a path is let into a job's manifest and why it is kept out (`evaluate_scope_amendment`,
    hyqs/pipeline/collision.py), told from the request itself: who names the path, what it is filed
    under, and which of the policy's demands it meets. */
module AmendmentGrounds {
  import opened PyValues
  import opened Sorting
  import opened ScopeAmendment
  import ScopeLimits
  import ScopeCycles
  import DependencyMinimizer

  // ---- who names a path ------------------------------------------------------------------------

  /** A path is filed under its canonical form, or as tidied when it has none. */
  ghost predicate FiledAs(policy: Policy, raw: string, key: string) {
    var text := policy.tidy(raw);
    if policy.norm(text).Some? then policy.norm(text) == Some(key) else key == text
  }

  ghost predicate Failing(policy: Policy, req: Request, key: string) {
    exists raw :: raw in req.event.failingPaths && FiledAs(policy, raw, key)
  }

  /** The path is among the evidence of this name. */
  ghost predicate Shown(policy: Policy, req: Request, name: string, key: string) {
    exists e, raw :: e in req.evidence && e.0 == name && raw in e.1 && FiledAs(policy, raw, key)
  }

  ghost predicate IsFirm(policy: Policy, name: string) {
    var n := policy.lower(name);
    || n == "coverage" || n == "coverage_paths" || n == "import" || n == "imports" || n == "import_paths"
    || n == "symbol" || n == "symbols" || n == "symbol_paths"
  }

  ghost predicate IsOfAModel(policy: Policy, name: string) {
    var n := policy.lower(name);
    n == "ai" || n == "ai_only" || n == "model"
  }

  ghost predicate IsVague(policy: Policy, name: string) { !IsFirm(policy, name) && !IsOfAModel(policy, name) }

  /** Some gate failed on the path, or firm evidence shows it, or both a model and vague evidence. */
  ghost predicate IsFounded(policy: Policy, req: Request, key: string) {
    || Failing(policy, req, key)
    || (exists name :: Shown(policy, req, name, key) && IsFirm(policy, name))
    || ((exists name :: Shown(policy, req, name, key) && IsOfAModel(policy, name)) &&
        exists name :: Shown(policy, req, name, key) && IsVague(policy, name))
  }

  /** The codes of the policy are lower-case already. */
  ghost predicate LowersPlainly(policy: Policy) {
    && policy.lower("ai_only_evidence") == "ai_only_evidence"
    && policy.lower("ambiguous_evidence") == "ambiguous_evidence"
    && policy.lower("speculative_evidence") == "speculative_evidence"
    && policy.lower("current_diff") == "current_diff"
  }

  // ---- the tags behind that --------------------------------------------------------------------

  ghost predicate TagOf(policy: Policy, req: Request, key: string, tag: string) {
    || (Failing(policy, req, key) && tag == req.event.stage + ":failure_path")
    || exists name :: Shown(policy, req, name, key) && tag == EvidenceTag(policy, name)
  }

  lemma {:induction false} EvidenceCandidatesAre(policy: Policy, evidence: seq<(string, seq<string>)>,
                                                 c: (string, string))
    ensures c in EvidenceCandidates(policy, evidence) <==>
            exists e :: e in evidence && c.0 in e.1 && c.1 == EvidenceTag(policy, e.0)
  {
    hide EvidenceTag;
    if evidence != [] {
      EvidenceCandidatesAre(policy, evidence[1..], c);
      assert evidence == [evidence[0]] + evidence[1..];
      TaggedAre(evidence[0].1, EvidenceTag(policy, evidence[0].0), c);
    }
  }

  lemma TaggedAre(raws: seq<string>, tag: string, c: (string, string))
    ensures c in Tagged(raws, tag) <==> c.0 in raws && c.1 == tag
  {
    var tagged := Tagged(raws, tag);
    if c.0 in raws && c.1 == tag {
      var i :| 0 <= i < |raws| && raws[i] == c.0;
      assert tagged[i] == c;
    }
  }

  lemma CandidatesAre(policy: Policy, req: Request, c: (string, string))
    ensures c in RawCandidates(policy, req) <==>
            || (c.0 in req.event.failingPaths && c.1 == req.event.stage + ":failure_path")
            || exists e :: e in req.evidence && c.0 in e.1 && c.1 == EvidenceTag(policy, e.0)
  {
    hide EvidenceTag;
    TaggedAre(req.event.failingPaths, req.event.stage + ":failure_path", c);
    EvidenceCandidatesAre(policy, req.evidence, c);
  }

  lemma TagsAre(policy: Policy, req: Request, key: string, tag: string)
    ensures tag in Tags(policy, RawCandidates(policy, req), key) <==> TagOf(policy, req, key, tag)
  {
    hide EvidenceTag, RawCandidates;
    if tag in Tags(policy, RawCandidates(policy, req), key) {
      var c :| c in RawCandidates(policy, req) && Key(policy, c.0) == key && c.1 == tag;
      CandidatesAre(policy, req, c);
      assert FiledAs(policy, c.0, key);
      if e :| e in req.evidence && c.0 in e.1 && c.1 == EvidenceTag(policy, e.0) {
        assert Shown(policy, req, e.0, key);
      }
    }
    if Failing(policy, req, key) && tag == req.event.stage + ":failure_path" {
      var raw :| raw in req.event.failingPaths && FiledAs(policy, raw, key);
      CandidatesAre(policy, req, (raw, tag));
      assert (raw, tag) in RawCandidates(policy, req) && Key(policy, raw) == key;
    }
    if name :| Shown(policy, req, name, key) && tag == EvidenceTag(policy, name) {
      var e, raw :| e in req.evidence && e.0 == name && raw in e.1 && FiledAs(policy, raw, key);
      CandidatesAre(policy, req, (raw, tag));
      assert (raw, tag) in RawCandidates(policy, req) && Key(policy, raw) == key;
    }
  }

  /** What the tag of a piece of evidence tells. */
  lemma TagTells(policy: Policy, name: string)
    requires LowersPlainly(policy)
    ensures var tag := EvidenceTag(policy, name);
            && tag != "current_diff"
            && (tag == "ai_only_evidence" <==> IsOfAModel(policy, name))
            && (tag == "ambiguous_evidence" || tag == "speculative_evidence" <==> IsVague(policy, name))
            && (tag == "speculative_evidence" <==> policy.lower(name) == "speculative")
  {
  }

  lemma FailureTagTells(stage: string)
    ensures var tag := stage + ":failure_path";
            tag != "current_diff" && tag != "ai_only_evidence" && tag != "ambiguous_evidence" &&
            tag != "speculative_evidence"
  {
    var tag := stage + ":failure_path";
    assert tag[|tag| - 1] == 'h';
  }

  lemma ProvenanceIs(policy: Policy, req: Request, key: string, tag: string)
    requires tag != "current_diff"
    ensures tag in Provenance(policy, req, key) <==> TagOf(policy, req, key, tag)
  {
    hide EvidenceTag, RawCandidates, Key, TagOf;
    TagsAre(policy, req, key, tag);
  }

  ghost predicate OnlyTagged(policy: Policy, req: Request, key: string, allowed: set<string>) {
    Provenance(policy, req, key) <= allowed
  }

  const OF_A_MODEL := {"ai_only_evidence", "current_diff"}
  const VAGUE := {"ambiguous_evidence", "speculative_evidence", "current_diff"}

  lemma FoundedIsNotSuspect(policy: Policy, req: Request, key: string)
    requires LowersPlainly(policy) && IsFounded(policy, req, key)
    ensures !OnlyTagged(policy, req, key, OF_A_MODEL) && !OnlyTagged(policy, req, key, VAGUE)
  {
    hide EvidenceTag, Provenance, LowersPlainly, IsFirm, IsOfAModel;
    if Failing(policy, req, key) {
      FailureTagTells(req.event.stage);
      ProvenanceIs(policy, req, key, req.event.stage + ":failure_path");
    } else if name :| Shown(policy, req, name, key) && IsFirm(policy, name) {
      FirmIsNeither(policy, name);
      TagTells(policy, name);
      ProvenanceIs(policy, req, key, EvidenceTag(policy, name));
    } else {
      var a :| Shown(policy, req, a, key) && IsOfAModel(policy, a);
      var b :| Shown(policy, req, b, key) && IsVague(policy, b);
      TagTells(policy, a);
      TagTells(policy, b);
      ProvenanceIs(policy, req, key, EvidenceTag(policy, a));
      ProvenanceIs(policy, req, key, EvidenceTag(policy, b));
    }
  }

  lemma FirmIsNeither(policy: Policy, name: string)
    requires IsFirm(policy, name)
    ensures !IsOfAModel(policy, name) && !IsVague(policy, name)
  {
  }

  /** Who is behind a tag. */
  lemma BehindTag(policy: Policy, req: Request, key: string, tag: string)
    requires LowersPlainly(policy) && tag in Provenance(policy, req, key) && tag != "current_diff"
    ensures || Failing(policy, req, key)
            || exists name :: Shown(policy, req, name, key) && tag == EvidenceTag(policy, name)
  {
    hide EvidenceTag, Provenance;
    ProvenanceIs(policy, req, key, tag);
  }

  lemma UnfoundedIsSuspect(policy: Policy, req: Request, key: string)
    requires LowersPlainly(policy) && !IsFounded(policy, req, key)
    ensures OnlyTagged(policy, req, key, OF_A_MODEL) || OnlyTagged(policy, req, key, VAGUE)
  {
    hide EvidenceTag, Provenance, LowersPlainly, IsFirm, IsOfAModel;
    if !OnlyTagged(policy, req, key, OF_A_MODEL) && !OnlyTagged(policy, req, key, VAGUE) {
      var x :| x in Provenance(policy, req, key) && x !in OF_A_MODEL;
      var y :| y in Provenance(policy, req, key) && y !in VAGUE;
      BehindTag(policy, req, key, x);
      BehindTag(policy, req, key, y);
      var a :| Shown(policy, req, a, key) && x == EvidenceTag(policy, a);
      var b :| Shown(policy, req, b, key) && y == EvidenceTag(policy, b);
      TagTells(policy, a);
      TagTells(policy, b);
    }
  }

  // ---- what is demanded of a path --------------------------------------------------------------

  ghost predicate Listed(policy: Policy, raws: seq<string>, path: string) {
    exists raw :: raw in raws && policy.norm(raw) == Some(path)
  }

  ghost predicate MayAuthorize(policy: Policy, e: GateEvent) {
    && (e.stage == "test" || e.stage == "lint" || e.stage == "security" || e.stage == "design_review")
    && e.authorized && e.gated && e.failed
    && policy.lower(e.outcome) != "passed" && policy.lower(e.outcome) != "success"
  }

  /** Another job's manifest names a file that is this one, or matches it either way. */
  ghost predicate IsTaken(policy: Policy, req: Request, path: string) {
    exists m, q :: m in req.active && q in m && (q == path || policy.glob(path, q) || policy.glob(q, path))
  }

  ghost predicate IsRoot(policy: Policy, req: Request, path: string) {
    || Listed(policy, req.event.failingPaths, path) || Listed(policy, req.plan, path)
    || Listed(policy, req.frozen, path)
  }

  /** A stated relation, beyond doubt, leads from a failing, planned or frozen path to this one. */
  ghost predicate IsRelated(policy: Policy, req: Request, path: string) {
    exists r, root :: r in req.relations && !r.doubtful && policy.norm(r.target) == Some(path) &&
                      policy.norm(r.source) == Some(root) && IsRoot(policy, req, root)
  }

  ghost predicate MeetsTheDemands(policy: Policy, req: Request, key: string, path: string) {
    && !policy.globbed(key) && policy.norm(key) == Some(path)
    && MayAuthorize(policy, req.event) && IsFounded(policy, req, key)
    && Listed(policy, req.tracked, path) && !Listed(policy, req.frozen, path) && !Listed(policy, req.history, path)
    && (policy.sensitive(path) ==> Listed(policy, req.plan, path) || Listed(policy, req.event.operatorPaths, path))
    && !IsTaken(policy, req, path)
    && (Listed(policy, req.event.failingPaths, path) || IsRelated(policy, req, path))
  }

  lemma ListedIff(policy: Policy, raws: seq<string>, path: string)
    ensures path in Normalized(policy, raws) <==> Listed(policy, raws, path)
  {
    if Listed(policy, raws, path) {
      var raw :| raw in raws && policy.norm(raw) == Some(path);
      assert policy.norm(raw).Some? && policy.norm(raw).value == path;
    }
  }

  lemma AuthorizedIff(policy: Policy, e: GateEvent)
    ensures IsAuthorized(policy, e) <==> MayAuthorize(policy, e)
  {
  }

  lemma TakenIff(policy: Policy, req: Request, path: string)
    ensures ConflictsWithActive(policy, req, path) <==> IsTaken(policy, req, path)
  {
    forall m ensures DependencyMinimizer.CheckManifestConflict(policy.glob, [path], m) <==>
                     exists q :: q in m && (q == path || policy.glob(path, q) || policy.glob(q, path)) {}
  }

  lemma RelatedIff(policy: Policy, req: Request, path: string)
    ensures RootedBy(policy, req, path) != {} <==> IsRelated(policy, req, path)
  {
    hide Normalized, Roots, IsRoot;
    forall root ensures root in Roots(policy, req) <==> IsRoot(policy, req, root) { RootIff(policy, req, root); }
    if IsRelated(policy, req, path) {
      var r, root :| r in req.relations && !r.doubtful && policy.norm(r.target) == Some(path) &&
                     policy.norm(r.source) == Some(root) && IsRoot(policy, req, root);
      assert (root, r.kind) in RootedBy(policy, req, path);
    }
    if RootedBy(policy, req, path) != {} {
      var k :| k in RootedBy(policy, req, path);
      var r :| r in req.relations && !r.doubtful && policy.norm(r.target) == Some(path)
               && policy.norm(r.source).Some? && policy.norm(r.source).value in Roots(policy, req)
               && k == (policy.norm(r.source).value, r.kind);
      assert policy.norm(r.source) == Some(policy.norm(r.source).value);
    }
  }

  /** A candidate is eligible exactly when it meets every demand. */
  lemma EligibleIff(policy: Policy, req: Request, key: string, path: string)
    requires LowersPlainly(policy)
    ensures Judge(policy, req, key).Eligible? && Judge(policy, req, key).item.path == path <==>
            MeetsTheDemands(policy, req, key, path)
  {
    hide IsAuthorized, MayAuthorize, IsFounded, Provenance, Normalized, Listed, ConflictsWithActive, IsTaken, RootedBy,
         IsRelated;
    AuthorizedIff(policy, req.event);
    if IsFounded(policy, req, key) {
      FoundedIsNotSuspect(policy, req, key);
    } else {
      UnfoundedIsSuspect(policy, req, key);
    }
    ListedIff(policy, req.tracked, path);
    ListedIff(policy, req.frozen, path);
    ListedIff(policy, req.history, path);
    ListedIff(policy, req.plan, path);
    ListedIff(policy, req.event.operatorPaths, path);
    ListedIff(policy, req.event.failingPaths, path);
    TakenIff(policy, req, path);
    RelatedIff(policy, req, path);
  }

  // ---- the decision ----------------------------------------------------------------------------

  ghost predicate IsNamed(policy: Policy, req: Request, key: string) {
    Failing(policy, req, key) || exists name :: Shown(policy, req, name, key)
  }

  lemma KeysAreNamed(policy: Policy, req: Request, key: string)
    ensures key in Keys(policy, RawCandidates(policy, req)) <==> IsNamed(policy, req, key)
  {
    hide EvidenceTag, RawCandidates, Key, SortUnique;
    var candidates := RawCandidates(policy, req);
    var filed := seq(|candidates|, i requires 0 <= i < |candidates| => Key(policy, candidates[i].0));
    StringLessIsStrictOrder();
    SortUniqueSorts(StringLess, filed);
    if key in filed {
      var i :| 0 <= i < |filed| && filed[i] == key;
      assert candidates[i].1 in Tags(policy, candidates, key);
      TagsAre(policy, req, key, candidates[i].1);
    }
    if IsNamed(policy, req, key) {
      var tag := SomeTag(policy, req, key);
      TagsAre(policy, req, key, tag);
      var c :| c in candidates && Key(policy, c.0) == key && c.1 == tag;
      var i :| 0 <= i < |candidates| && candidates[i] == c;
      assert filed[i] == key;
    }
  }

  lemma SomeTag(policy: Policy, req: Request, key: string) returns (tag: string)
    requires IsNamed(policy, req, key)
    ensures TagOf(policy, req, key, tag)
  {
    if Failing(policy, req, key) {
      tag := req.event.stage + ":failure_path";
    } else {
      var name :| Shown(policy, req, name, key);
      tag := EvidenceTag(policy, name);
    }
  }

  ghost predicate IsGranted(d: Decision, path: string) { exists a :: a in d.accepted && a.path == path }

  /** How many paths earlier amendments brought in. */
  ghost function Spent(policy: Policy, req: Request): nat {
    |set raw | raw in req.history && policy.norm(raw).Some? :: policy.norm(raw).value|
  }

  /** Only a path that meets every demand is granted, and as long as fewer paths are granted than
      either limit allows, every one that does. */
  lemma GrantedIff(policy: Policy, req: Request, perCycle: int, cumulative: int, path: string)
    requires perCycle >= 0 && cumulative >= 0 && LowersPlainly(policy)
    ensures var d := Decide(policy, req, perCycle, cumulative);
            && (IsGranted(d, path) ==> exists key :: MeetsTheDemands(policy, req, key, path))
            && (|d.accepted| < perCycle && Spent(policy, req) + |d.accepted| < cumulative ==>
                  (IsGranted(d, path) <==> exists key :: MeetsTheDemands(policy, req, key, path)))
  {
    hide Judge, MeetsTheDemands, Keys, RawCandidates, AllRejected, LowersPlainly, AcceptedLimit, LimitCode;
    var d := Decide(policy, req, perCycle, cumulative);
    if a :| a in d.accepted && a.path == path {
      var key := GrantedIsEligible(policy, req, perCycle, cumulative, a);
      EligibleIff(policy, req, key, path);
    }
    if key :| MeetsTheDemands(policy, req, key, path) {
      EligibleIff(policy, req, key, path);
      DemandsAreNamed(policy, req, key, path);
      KeysAreNamed(policy, req, key);
      EligibleIsGrantedOrLimited(policy, req, perCycle, cumulative, key);
      LimitIs(policy, req, perCycle, cumulative);
    }
  }

  lemma DemandsAreNamed(policy: Policy, req: Request, key: string, path: string)
    requires MeetsTheDemands(policy, req, key, path)
    ensures IsNamed(policy, req, key)
  {
    hide Failing, Shown;
  }

  lemma LimitIs(policy: Policy, req: Request, perCycle: int, cumulative: int)
    ensures AcceptedLimit(policy, req, perCycle, cumulative) >= perCycle ||
            AcceptedLimit(policy, req, perCycle, cumulative) + Spent(policy, req) >= cumulative
  {
  }

  lemma GrantedIsEligible(policy: Policy, req: Request, perCycle: int, cumulative: int, a: Accepted)
    returns (key: string)
    requires perCycle >= 0 && cumulative >= 0 && a in Decide(policy, req, perCycle, cumulative).accepted
    ensures key in Keys(policy, RawCandidates(policy, req)) && Judge(policy, req, key) == Eligible(a)
  {
    hide Judge, Keys, RawCandidates;
    var keys := Keys(policy, RawCandidates(policy, req));
    var eligible := EligibleOf(policy, req, keys);
    PathLessIsWeakOrder();
    StableSortSorts(PathLess, eligible);
    assert a in Ranked(policy, req);
    assert a in multiset(Ranked(policy, req));
    assert a in eligible;
    EligibleItems(policy, req, keys, a);
    key :| key in keys && Judge(policy, req, key) == Eligible(a);
  }

  /** What evidence of this name is reported as. */
  ghost function Calling(policy: Policy, name: string): string {
    if IsFirm(policy, name) then name
    else if IsOfAModel(policy, name) then "ai_only_evidence"
    else if policy.lower(name) == "speculative" then "speculative_evidence"
    else "ambiguous_evidence"
  }

  /** One reason a path is granted for. */
  ghost predicate IsGround(policy: Policy, req: Request, key: string, path: string, ground: string) {
    || (Failing(policy, req, key) && ground == req.event.stage + ":failure_path")
    || (exists name :: Shown(policy, req, name, key) && ground == Calling(policy, name))
    || (ground == "current_diff" && Listed(policy, req.diff, path))
    || exists r, root :: r in req.relations && !r.doubtful && policy.norm(r.target) == Some(path) &&
                         policy.norm(r.source) == Some(root) && IsRoot(policy, req, root) &&
                         ground == r.kind + ":" + root
  }

  /** A granted path is reported with all its grounds and no other. */
  lemma GrantTells(policy: Policy, req: Request, perCycle: int, cumulative: int, a: Accepted) returns (key: string)
    requires perCycle >= 0 && cumulative >= 0 && LowersPlainly(policy)
    requires a in Decide(policy, req, perCycle, cumulative).accepted
    ensures MeetsTheDemands(policy, req, key, a.path)
    ensures forall ground :: ground in a.provenance <==> IsGround(policy, req, key, a.path, ground)
  {
    hide Decide, MeetsTheDemands, LowersPlainly, IsGround, Provenance, RootedBy;
    key := GrantedIsEligible(policy, req, perCycle, cumulative, a);
    EligibleIff(policy, req, key, a.path);
    forall ground ensures ground in a.provenance <==> IsGround(policy, req, key, a.path, ground) {
      GroundIff(policy, req, key, a.path, ground);
    }
  }

  lemma GroundIff(policy: Policy, req: Request, key: string, path: string, ground: string)
    requires policy.norm(key) == Some(path)
    ensures var rooted := RootedBy(policy, req, path);
            IsGround(policy, req, key, path, ground) <==>
            ground in Provenance(policy, req, key) + set r | r in rooted :: r.1 + ":" + r.0
  {
    hide EvidenceTag, RawCandidates, Key, Shown, Failing, IsRoot, Normalized;
    TagsAre(policy, req, key, ground);
    ListedIff(policy, req.diff, path);
    forall name ensures Calling(policy, name) == EvidenceTag(policy, name) { CallingIs(policy, name); }
    forall root ensures root in Roots(policy, req) <==> IsRoot(policy, req, root) { RootIff(policy, req, root); }
    hide Roots, Calling;
    var rooted := RootedBy(policy, req, path);
    if r, root :| r in req.relations && !r.doubtful && policy.norm(r.target) == Some(path) &&
                  policy.norm(r.source) == Some(root) && IsRoot(policy, req, root) && ground == r.kind + ":" + root {
      assert (root, r.kind) in rooted;
    }
    if k :| k in rooted && ground == k.1 + ":" + k.0 {
      var r :| r in req.relations && !r.doubtful && policy.norm(r.target) == Some(path)
               && policy.norm(r.source).Some? && policy.norm(r.source).value in Roots(policy, req)
               && k == (policy.norm(r.source).value, r.kind);
      assert policy.norm(r.source) == Some(k.0);
    }
  }

  lemma CallingIs(policy: Policy, name: string)
    ensures Calling(policy, name) == EvidenceTag(policy, name)
  {
  }

  lemma RootIff(policy: Policy, req: Request, root: string)
    ensures root in Roots(policy, req) <==> IsRoot(policy, req, root)
  {
    hide Normalized;
    ListedIff(policy, req.event.failingPaths, root);
    ListedIff(policy, req.plan, root);
    ListedIff(policy, req.frozen, root);
  }

  // ---- the refusals ----------------------------------------------------------------------------

  ghost predicate OnlyModelsShow(policy: Policy, req: Request, key: string) {
    !Failing(policy, req, key) && forall name :: Shown(policy, req, name, key) ==> IsOfAModel(policy, name)
  }

  ghost predicate OnlyVagueShows(policy: Policy, req: Request, key: string) {
    !Failing(policy, req, key) && forall name :: Shown(policy, req, name, key) ==> IsVague(policy, name)
  }

  ghost predicate OnlySpeculationShows(policy: Policy, req: Request, key: string) {
    !Failing(policy, req, key) && forall name :: Shown(policy, req, name, key) ==> policy.lower(name) == "speculative"
  }

  /** The first demand the path fails, by the code it is reported with. */
  ghost function FirstFailing(policy: Policy, req: Request, key: string, path: string): string {
    if !MayAuthorize(policy, req.event) then "unauthorized_event"
    else if OnlyModelsShow(policy, req, key) then "ai_only_evidence"
    else if OnlySpeculationShows(policy, req, key) then "speculative_evidence"
    else if OnlyVagueShows(policy, req, key) then "ambiguous_evidence"
    else if !Listed(policy, req.tracked, path) then "untracked_path"
    else if Listed(policy, req.frozen, path) || Listed(policy, req.history, path) then "repeated_path"
    else if policy.sensitive(path) && !Listed(policy, req.plan, path) && !Listed(policy, req.event.operatorPaths, path)
    then "sensitive_path"
    else if IsTaken(policy, req, path) then "manifest_conflict"
    else "unrelated_product_area"
  }

  ghost predicate IsRefusedFor(policy: Policy, req: Request, key: string, why: Rejected) {
    if policy.globbed(key) then why == Rejected(key, "glob_path")
    else if policy.norm(key).None? then
      why == Rejected(key, if policy.directory(key) then "directory_path" else "unsafe_path")
    else
      var path := policy.norm(key).value;
      !MeetsTheDemands(policy, req, key, path) && why == Rejected(path, FirstFailing(policy, req, key, path))
  }

  /** The cut-off paths carry the code of the limit that leaves less room. */
  ghost predicate IsCutOff(policy: Policy, req: Request, perCycle: int, cumulative: int, why: Rejected) {
    && (exists key :: MeetsTheDemands(policy, req, key, why.candidate))
    && why.reason == if cumulative - Spent(policy, req) <= perCycle then "cumulative_limit" else "per_cycle_limit"
  }

  /** Every reported rejection is a named candidate under the first demand it fails, or a path that
      met them all and was cut off by a limit. */
  lemma RejectionsAre(policy: Policy, req: Request, perCycle: int, cumulative: int, why: Rejected)
    requires perCycle >= 0 && cumulative >= 0 && LowersPlainly(policy)
    requires why in Decide(policy, req, perCycle, cumulative).rejected
    ensures || (exists key :: IsNamed(policy, req, key) && IsRefusedFor(policy, req, key, why))
            || IsCutOff(policy, req, perCycle, cumulative, why)
  {
    hide Judge, MeetsTheDemands, IsRefusedFor, Keys, RawCandidates, LowersPlainly, LimitCode, StableSort, EligibleOf,
         RefusedOf, IsNamed;
    var keys := Keys(policy, RawCandidates(policy, req));
    var ranked := Ranked(policy, req);
    var n := |Cut(ranked, AcceptedLimit(policy, req, perCycle, cumulative))|;
    var code := LimitCode(policy, req, perCycle, cumulative);
    var refused := RefusedOf(policy, req, keys);
    SortedContents(refused + Surplus(ranked[n..], code), why);
    if why in refused {
      var key := RefusedItem(policy, req, keys, why);
      KeysAreNamed(policy, req, key);
      RefusedIsFor(policy, req, key);
    } else {
      var i :| 0 <= i < |ranked[n..]| && Surplus(ranked[n..], code)[i] == why;
      assert ranked[n + i] in ranked;
      RankedIsEligible(policy, req, ranked[n + i]);
      LimitCodeIs(policy, req, perCycle, cumulative);
    }
  }

  lemma LimitCodeIs(policy: Policy, req: Request, perCycle: int, cumulative: int)
    requires perCycle >= 0
    ensures LimitCode(policy, req, perCycle, cumulative) ==
            if cumulative - Spent(policy, req) <= perCycle then "cumulative_limit" else "per_cycle_limit"
  {
  }

  lemma {:induction false} RefusedItem(policy: Policy, req: Request, keys: seq<string>, why: Rejected)
    returns (key: string)
    requires why in RefusedOf(policy, req, keys)
    ensures key in keys && Judge(policy, req, key) == Refused(why)
  {
    hide Judge;
    var n := |keys| - 1;
    if Judge(policy, req, keys[n]) == Refused(why) {
      key := keys[n];
    } else {
      key := RefusedItem(policy, req, keys[..n], why);
    }
  }

  lemma RankedIsEligible(policy: Policy, req: Request, a: Accepted)
    requires a in Ranked(policy, req) && LowersPlainly(policy)
    ensures exists key :: MeetsTheDemands(policy, req, key, a.path)
  {
    hide Judge, MeetsTheDemands, Keys, RawCandidates, LowersPlainly;
    var keys := Keys(policy, RawCandidates(policy, req));
    var eligible := EligibleOf(policy, req, keys);
    PathLessIsWeakOrder();
    StableSortSorts(PathLess, eligible);
    assert a in multiset(Ranked(policy, req));
    assert a in eligible;
    EligibleItems(policy, req, keys, a);
    var key :| key in keys && Judge(policy, req, key) == Eligible(a);
    EligibleIff(policy, req, key, a.path);
  }

  lemma RefusedIsFor(policy: Policy, req: Request, key: string)
    requires LowersPlainly(policy) && IsNamed(policy, req, key) && Judge(policy, req, key).Refused?
    ensures IsRefusedFor(policy, req, key, Judge(policy, req, key).why)
  {
    hide IsAuthorized, MayAuthorize, IsNamed, Provenance, Normalized, Listed, ConflictsWithActive, IsTaken, RootedBy,
         OnlyModelsShow, OnlyVagueShows, OnlySpeculationShows, MeetsTheDemands, LowersPlainly;
    AuthorizedIff(policy, req.event);
    SuspicionsAre(policy, req, key);
    if policy.norm(key).Some? {
      var path := policy.norm(key).value;
      EligibleIff(policy, req, key, path);
      ListedIff(policy, req.tracked, path);
      ListedIff(policy, req.frozen, path);
      ListedIff(policy, req.history, path);
      ListedIff(policy, req.plan, path);
      ListedIff(policy, req.event.operatorPaths, path);
      TakenIff(policy, req, path);
    }
  }

  /** The code's tests on the tags, told by who names the path. */
  lemma SuspicionsAre(policy: Policy, req: Request, key: string)
    requires LowersPlainly(policy) && IsNamed(policy, req, key)
    ensures var tags := Provenance(policy, req, key);
            && (tags <= {"ai_only_evidence", "current_diff"} <==> OnlyModelsShow(policy, req, key))
            && (tags <= {"ambiguous_evidence", "speculative_evidence", "current_diff"} <==>
                  OnlyVagueShows(policy, req, key))
            && (OnlySpeculationShows(policy, req, key) <==>
                  OnlyVagueShows(policy, req, key) && "ambiguous_evidence" !in tags)
  {
    hide EvidenceTag, Provenance, LowersPlainly, IsFirm, IsOfAModel, IsVague, Shown, Failing;
    forall name
      ensures var tag := EvidenceTag(policy, name);
              && tag != "current_diff"
              && (tag == "ai_only_evidence" <==> IsOfAModel(policy, name))
              && (tag == "ambiguous_evidence" || tag == "speculative_evidence" <==> IsVague(policy, name))
              && (tag == "speculative_evidence" <==> policy.lower(name) == "speculative")
    {
      TagTells(policy, name);
    }
    TagsWithin(policy, req, key, {"ai_only_evidence", "current_diff"});
    TagsWithin(policy, req, key, {"ambiguous_evidence", "speculative_evidence", "current_diff"});
    TagsWithin(policy, req, key, {"speculative_evidence", "current_diff"});
  }

  lemma TagsWithin(policy: Policy, req: Request, key: string, allowed: set<string>)
    requires "current_diff" in allowed
    requires forall tag :: tag in allowed ==>
               tag in {"current_diff", "ai_only_evidence", "ambiguous_evidence", "speculative_evidence"}
    ensures Provenance(policy, req, key) <= allowed <==>
            !Failing(policy, req, key) &&
            forall name :: Shown(policy, req, name, key) ==> EvidenceTag(policy, name) in allowed
  {
    hide EvidenceTag, Provenance, Shown, Failing;
    var tags := Provenance(policy, req, key);
    forall tag: string | tag != "current_diff" ensures tag in tags <==> TagOf(policy, req, key, tag) {
      ProvenanceIs(policy, req, key, tag);
    }
    FailureTagTells(req.event.stage);
    if Failing(policy, req, key) { assert TagOf(policy, req, key, req.event.stage + ":failure_path"); }
    if name :| Shown(policy, req, name, key) && EvidenceTag(policy, name) !in allowed {
      assert TagOf(policy, req, key, EvidenceTag(policy, name));
    }
    if tag :| tag in tags && tag !in allowed {
      assert TagOf(policy, req, key, tag);
    }
  }

  // ---- two weak kinds of evidence together -----------------------------------------------------

  /** A gate ran on a change planned for one file; all that speaks for a companion of it is the given
      evidence. */
  ghost function WithEvidence(names: seq<string>): Request {
    Request(GateEvent("test", true, true, true, "failed", [], []), ["src/app.py"], [], ["src/view.py"], [],
            seq(|names|, i requires 0 <= i < |names| => (names[i], ["src/view.py"])),
            [Relation("src/app.py", "src/view.py", "companion", false)], [], [])
  }

  ghost predicate IsOrdinary(policy: Policy, path: string) {
    && policy.norm(path) == Some(path) && policy.tidy(path) == path
    && !policy.sensitive(path) && !policy.globbed(path)
  }

  /** The word of a model alone is refused, and so is a speculation; both together let the path in. */
  lemma TwoWeakKindsSuffice(policy: Policy)
    requires LowersPlainly(policy) && IsOrdinary(policy, "src/app.py") && IsOrdinary(policy, "src/view.py")
    requires forall name :: name in {"ai", "speculative", "failed"} ==> policy.lower(name) == name
    ensures !IsGranted(Decide(policy, WithEvidence(["ai"]), 8, 24), "src/view.py")
    ensures !IsGranted(Decide(policy, WithEvidence(["speculative"]), 8, 24), "src/view.py")
    ensures IsGranted(Decide(policy, WithEvidence(["ai", "speculative"]), 8, 24), "src/view.py")
  {
    hide Decide, LowersPlainly, IsOrdinary, WithEvidence;
    GrantedByEvidence(policy, ["ai"]);
    GrantedByEvidence(policy, ["speculative"]);
    GrantedByEvidence(policy, ["ai", "speculative"]);
  }

  lemma GrantedByEvidence(policy: Policy, names: seq<string>)
    requires LowersPlainly(policy) && IsOrdinary(policy, "src/app.py") && IsOrdinary(policy, "src/view.py")
    requires forall name :: name in {"ai", "speculative", "failed"} ==> policy.lower(name) == name
    requires |names| <= 2 && forall name :: name in names ==> name in {"ai", "speculative"}
    ensures IsGranted(Decide(policy, WithEvidence(names), 8, 24), "src/view.py") <==>
            "ai" in names && "speculative" in names
  {
    hide Decide, LowersPlainly, IsOrdinary, MeetsTheDemands, IsGranted;
    FewAreGranted(policy, names);
    WeakDemands(policy, names);
    GrantedIff(policy, WithEvidence(names), 8, 24, "src/view.py");
    assert WithEvidence(names).history == [];
    assert Spent(policy, WithEvidence(names)) == 0;
  }

  lemma FewAreGranted(policy: Policy, names: seq<string>)
    requires |names| <= 2
    ensures |Decide(policy, WithEvidence(names), 8, 24).accepted| <= 2
  {
    hide Judge, Key, EvidenceTag, SortUnique, Ranked, AllRejected;
    var req := WithEvidence(names);
    var keys := Keys(policy, RawCandidates(policy, req));
    EvidenceIsShort(policy, req.evidence);
    ScopeLimits.KeysAreFew(policy, req);
    ScopeLimits.EveryKeyIsJudged(policy, req, keys);
    RankedIsShort(policy, req);
  }

  lemma RankedIsShort(policy: Policy, req: Request)
    ensures |Ranked(policy, req)| == |EligibleOf(policy, req, Keys(policy, RawCandidates(policy, req)))|
  {
    hide Keys, RawCandidates, EligibleOf;
    PathLessIsWeakOrder();
    var eligible := EligibleOf(policy, req, Keys(policy, RawCandidates(policy, req)));
    StableSortSorts(PathLess, eligible);
    assert |multiset(eligible)| == |eligible| && |multiset(Ranked(policy, req))| == |Ranked(policy, req)|;
  }

  lemma {:induction false} EvidenceIsShort(policy: Policy, evidence: seq<(string, seq<string>)>)
    requires forall e :: e in evidence ==> |e.1| == 1
    ensures |EvidenceCandidates(policy, evidence)| == |evidence|
  {
    hide EvidenceTag;
    if evidence != [] {
      assert evidence[0] in evidence && forall e :: e in evidence[1..] ==> e in evidence;
      EvidenceIsShort(policy, evidence[1..]);
    }
  }

  lemma ShownIff(policy: Policy, names: seq<string>, name: string, key: string)
    requires IsOrdinary(policy, "src/view.py")
    ensures Shown(policy, WithEvidence(names), name, key) <==> name in names && key == "src/view.py"
  {
    var evidence := WithEvidence(names).evidence;
    if name in names && key == "src/view.py" {
      var i :| 0 <= i < |names| && names[i] == name;
      assert evidence[i] in evidence && evidence[i].0 == name && "src/view.py" in evidence[i].1;
      assert FiledAs(policy, "src/view.py", key);
    }
  }

  lemma WeakDemands(policy: Policy, names: seq<string>)
    requires LowersPlainly(policy) && IsOrdinary(policy, "src/app.py") && IsOrdinary(policy, "src/view.py")
    requires forall name :: name in {"ai", "speculative", "failed"} ==> policy.lower(name) == name
    requires forall name :: name in names ==> name in {"ai", "speculative"}
    ensures (exists key :: MeetsTheDemands(policy, WithEvidence(names), key, "src/view.py")) <==>
            "ai" in names && "speculative" in names
  {
    hide LowersPlainly, Shown, IsFirm, IsVague, IsOfAModel;
    var req := WithEvidence(names);
    forall name, key ensures Shown(policy, req, name, key) <==> name in names && key == "src/view.py" {
      ShownIff(policy, names, name, key);
    }
    WeakNames(policy);
    OthersMeet(policy, names);
    assert forall key :: IsFounded(policy, req, key) <==>
                         key == "src/view.py" && "ai" in names && "speculative" in names;
  }

  lemma WeakNames(policy: Policy)
    requires policy.lower("ai") == "ai" && policy.lower("speculative") == "speculative"
    ensures IsOfAModel(policy, "ai") && !IsFirm(policy, "ai") && !IsVague(policy, "ai")
    ensures IsVague(policy, "speculative") && !IsFirm(policy, "speculative") && !IsOfAModel(policy, "speculative")
  {
  }

  lemma OthersMeet(policy: Policy, names: seq<string>)
    requires IsOrdinary(policy, "src/app.py") && IsOrdinary(policy, "src/view.py") && policy.lower("failed") == "failed"
    ensures IsFounded(policy, WithEvidence(names), "src/view.py") ==>
              MeetsTheDemands(policy, WithEvidence(names), "src/view.py", "src/view.py")
  {
    hide IsFounded;
    var req := WithEvidence(names);
    assert "src/app.py" in req.plan && "src/view.py" in req.tracked;
    assert Listed(policy, req.plan, "src/app.py") && Listed(policy, req.tracked, "src/view.py");
    var r := req.relations[0];
    assert r in req.relations && IsRoot(policy, req, "src/app.py");
    assert IsRelated(policy, req, "src/view.py");
  }

  /** A cycle whose report shows a limit grants nothing, and says so of everything it would have
      granted; any other stands as decided. */
  lemma RunnerTells(d: Decision)
    ensures var r := RunnerDecision(d);
            if exists x :: x in d.rejected && (x.reason == "per_cycle_limit" || x.reason == "cumulative_limit") then
              && r.accepted == [] && |r.rejected| == |d.rejected| + |d.accepted|
              && r.rejected[..|d.rejected|] == d.rejected
              && forall i :: 0 <= i < |d.accepted| ==>
                   r.rejected[|d.rejected|..][i] == Rejected(d.accepted[i].path, "limit_rejected_cycle")
            else r == d
  {
    assert forall x: Rejected ::
        IsLimitCode(x.reason) <==> x.reason == "per_cycle_limit" || x.reason == "cumulative_limit";
  }

  // ---- a cycle of the runner -------------------------------------------------------------------

  ghost function EvidenceSize(evidence: seq<(string, seq<string>)>): nat {
    if evidence == [] then 0 else |evidence[0].1| + EvidenceSize(evidence[1..])
  }

  /** The failure the job points at names a gate, a check and an event, the one event that matches is
      recorded, and its paths are paths, some of them not allowed yet; the last change can be read. */
  ghost predicate MayWiden(policy: Policy, seen: ScopeCycles.Ledger, c: ScopeCycles.Cycle) {
    && c.pointed && c.matches == 1 && c.checkId != "" && c.eventId != "" && c.diff.Some?
    && (c.gate == "test" || c.gate == "lint" || c.gate == "security" || c.gate == "design_review")
    && c.failingPaths != [] && (forall p :: p in c.failingPaths ==> policy.norm(p).Some?)
    && exists p :: Listed(policy, c.failingPaths, p) && !Listed(policy, seen.allowed + seen.cumulative, p)
  }

  lemma MayWidenIff(policy: Policy, seen: ScopeCycles.Ledger, c: ScopeCycles.Cycle)
    ensures ScopeCycles.IsEvaluated(policy, seen, c) <==> MayWiden(policy, seen, c)
  {
    hide Listed, Normalized;
    forall p ensures p in Normalized(policy, c.failingPaths) <==> Listed(policy, c.failingPaths, p) {
      ListedIff(policy, c.failingPaths, p);
    }
    forall p
      ensures p in Normalized(policy, seen.allowed + seen.cumulative) <==>
              Listed(policy, seen.allowed + seen.cumulative, p)
    {
      ListedIff(policy, seen.allowed + seen.cumulative, p);
    }
  }

  /** What the runner asks of the policy. */
  ghost function Asked(seen: ScopeCycles.Ledger, c: ScopeCycles.Cycle): Request
    requires c.diff.Some?
  {
    Request(GateEvent(c.gate, true, true, true, "failed", c.failingPaths, c.operatorPaths),
            c.plan, seen.allowed, c.tracked, c.diff.value, c.evidence, c.relations, seen.cumulative, c.active)
  }

  /** A cycle on the job as it stands that names no more paths than the limits leave room for lets in
      exactly the paths that meet every demand, provided its event has not been recorded before. */
  lemma LetInIff(policy: Policy, l: ScopeCycles.Ledger, c: ScopeCycles.Cycle, path: string)
    requires LowersPlainly(policy) && path !in l.allowed
    requires |c.failingPaths| + EvidenceSize(c.evidence) <= 8
    requires |l.cumulative| + |c.failingPaths| + EvidenceSize(c.evidence) <= 24
    ensures path in ScopeCycles.AfterCycle(policy, l, l, c).allowed <==>
            && MayWiden(policy, l, c) && (forall e :: e in l.entries ==> e.eventId != c.eventId)
            && exists key :: MeetsTheDemands(policy, Asked(l, c), key, path)
  {
    hide MeetsTheDemands, MayWiden, LowersPlainly, Decide, EvidenceSize;
    MayWidenIff(policy, l, c);
    if ScopeCycles.IsEvaluated(policy, l, c) {
      var d := ScopeCycles.CycleDecision(policy, l, c);
      FewAreNamed(policy, Asked(l, c));
      SmallCycleGrants(policy, l, c, path);
      SmallAppend(l, d, c.gate, c.eventId, path);
    }
  }

  lemma FewAreNamed(policy: Policy, req: Request)
    ensures |Ranked(policy, req)| <= |req.event.failingPaths| + EvidenceSize(req.evidence)
  {
    hide Judge, SortUnique, Ranked, EvidenceSize;
    EvidenceHasSize(policy, req.evidence);
    ScopeLimits.KeysAreFew(policy, req);
    ScopeLimits.EveryKeyIsJudged(policy, req, Keys(policy, RawCandidates(policy, req)));
    RankedIsShort(policy, req);
  }

  lemma {:induction false} EvidenceHasSize(policy: Policy, evidence: seq<(string, seq<string>)>)
    ensures |EvidenceCandidates(policy, evidence)| == EvidenceSize(evidence)
  {
    hide EvidenceTag;
    if evidence != [] { EvidenceHasSize(policy, evidence[1..]); }
  }

  /** When nothing is cut off, what the cycle grants is what meets the demands. */
  lemma SmallCycleGrants(policy: Policy, l: ScopeCycles.Ledger, c: ScopeCycles.Cycle, path: string)
    requires LowersPlainly(policy) && c.diff.Some?
    requires |Ranked(policy, Asked(l, c))| <= 8 && |l.cumulative| + |Ranked(policy, Asked(l, c))| <= 24
    ensures var d := ScopeCycles.CycleDecision(policy, l, c);
            && d.accepted == Ranked(policy, Asked(l, c))
            && (IsGranted(d, path) <==> exists key :: MeetsTheDemands(policy, Asked(l, c), key, path))
  {
    hide Ranked, Judge, Decide, RunnerDecision, MeetsTheDemands, LowersPlainly, IsNamed, Keys, RawCandidates;
    var req := Asked(l, c);
    HistoryIsShort(policy, l.cumulative);
    ScopeLimits.NothingCutOff(policy, req, 8, 24);
    var d := ScopeCycles.CycleDecision(policy, l, c);
    if a :| a in d.accepted && a.path == path { RankedIsEligible(policy, req, a); }
    if key :| MeetsTheDemands(policy, req, key, path) {
      EligibleIff(policy, req, key, path);
      DemandsAreNamed(policy, req, key, path);
      KeysAreNamed(policy, req, key);
      EligibleIsListed(policy, req, Keys(policy, RawCandidates(policy, req)), key);
      var at := RankOf(policy, req, Judge(policy, req, key).item);
      assert d.accepted[at].path == path;
    }
  }

  lemma {:induction false} HistoryIsShort(policy: Policy, raws: seq<string>)
    ensures |Normalized(policy, raws)| <= |raws|
  {
    if raws == [] {
      assert Normalized(policy, raws) == {};
    } else {
      var n := |raws| - 1;
      HistoryIsShort(policy, raws[..n]);
      assert raws == raws[..n] + [raws[n]];
      var more := if policy.norm(raws[n]).Some? then {policy.norm(raws[n]).value} else {};
      assert Normalized(policy, raws) == Normalized(policy, raws[..n]) + more;
    }
  }

  lemma SmallAppend(l: ScopeCycles.Ledger, d: Decision, gate: string, eventId: string, path: string)
    requires path !in l.allowed && |l.cumulative| + |d.accepted| <= 24
    ensures path in ScopeCycles.Appended(l, d, gate, eventId, l.sequence, 24).0.allowed <==>
            (forall e :: e in l.entries ==> e.eventId != eventId) && IsGranted(d, path)
  {
    hide ScopeCycles.ItemsFor;
    ScopeCycles.NewlyAcceptedIs(l.allowed, d.accepted);
    assert ScopeCycles.Recorded(l.entries, eventId) <==> !(forall e :: e in l.entries ==> e.eventId != eventId);
  }
}
