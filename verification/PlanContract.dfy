/** The plan checks JSON Schema cannot express, and the ordering edges they complete
    (hyqs/pipeline/contracts.py). */
module PlanContract {
  import opened PyValues
  import opened Graphs

  // ---- repository paths -----------------------------------------------------------

  /** `path.split("/")` */
  function Parts(path: string): (parts: seq<string>)
    ensures parts != []
  {
    if path == "" then [""]
    else
      var rest := Parts(path[1..]);
      if path[0] == '/' then [""] + rest else [[path[0]] + rest[0]] + rest[1..]
  }

  function JoinParts(parts: seq<string>): string
    requires parts != []
  {
    if |parts| == 1 then parts[0] else parts[0] + "/" + JoinParts(parts[1..])
  }

  lemma {:induction false} PartsJoin(path: string)
    ensures JoinParts(Parts(path)) == path
  {
    if path != "" {
      var rest := Parts(path[1..]);
      PartsJoin(path[1..]);
      if path[0] == '/' {
        assert ([""] + rest)[1..] == rest;
      } else {
        assert ([[path[0]] + rest[0]] + rest[1..])[1..] == rest[1..];
      }
    }
  }

  predicate IsLetter(c: char) { 'a' <= c <= 'z' || 'A' <= c <= 'Z' }

  predicate Plain(part: string) { part != "" && part != "." && part != ".." }

  /** The first guard of `_canonical_repository_path`. */
  predicate Guarded(path: string) {
    && path != "" && path[0] != '/' && path[|path| - 1] != '/'
    && !(|path| >= 2 && IsLetter(path[0]) && path[1] == ':')
    && '\\' !in path && '\n' !in path && '\r' !in path
    && forall part :: part in Parts(path) ==> Plain(part)
  }

  /** The component stack of `posixpath.normpath`, for a relative path. */
  function Normalized(parts: seq<string>, stack: seq<string>): seq<string> {
    if parts == [] then stack
    else
      var part, rest := parts[0], parts[1..];
      if part == "" || part == "." then Normalized(rest, stack)
      else if part != ".." || stack == [] || stack[|stack| - 1] == ".." then Normalized(rest, stack + [part])
      else Normalized(rest, stack[..|stack| - 1])
  }

  function NormPath(path: string): string
    requires path == "" || path[0] != '/'
  {
    var stack := Normalized(Parts(path), []);
    if path == "" || stack == [] || JoinParts(stack) == "" then "." else JoinParts(stack)
  }

  function CanonicalRepositoryPath(path: string): Option<string> {
    if !Guarded(path) then None
    else
      var canonical := NormPath(path);
      if canonical != path || canonical == ".." || "../" <= canonical then None else Some(canonical)
  }

  lemma {:induction false} PlainIsNormal(parts: seq<string>, stack: seq<string>)
    requires forall part :: part in parts ==> Plain(part)
    ensures Normalized(parts, stack) == stack + parts
  {
    if parts == [] {
      assert stack + parts == stack;
    } else {
      assert parts[0] in parts;
      PlainIsNormal(parts[1..], stack + [parts[0]]);
      assert stack + parts == stack + [parts[0]] + parts[1..];
    }
  }

  lemma {:induction false} FirstPart(path: string)
    ensures Parts(path)[0] <= path
    ensures |Parts(path)[0]| < |path| ==> path[|Parts(path)[0]|] == '/'
    ensures '/' !in Parts(path)[0]
  {
    if path != "" && path[0] != '/' { FirstPart(path[1..]); }
  }

  /** The second check of the function can never fire: what passes the guard is canonical. */
  lemma GuardDecides(path: string)
    ensures CanonicalRepositoryPath(path) == if Guarded(path) then Some(path) else None
  {
    if Guarded(path) {
      var parts := Parts(path);
      PlainIsNormal(parts, []);
      assert [] + parts == parts;
      PartsJoin(path);
      FirstPart(path);
      assert Plain(parts[0]) by { assert parts[0] in parts; }
      if "../" <= path || path == ".." {
        ParentPart(path);
        assert false;
      }
    }
  }

  lemma ParentPart(path: string)
    requires "../" <= path || path == ".."
    ensures Parts(path)[0] == ".."
  {
    assert path[0] == '.' && path[1] == '.';
    assert Parts(path[2..])[0] == "" by {
      if path == ".." { assert path[2..] == ""; } else { assert path[2..][0] == '/'; }
    }
    assert path[1..][1..] == path[2..];
  }

  function EndsWith(s: string, suffix: string): bool {
    |suffix| <= |s| && s[|s| - |suffix|..] == suffix
  }

  const TEST_SUFFIXES := [".test.js", ".test.jsx", ".test.ts", ".test.tsx", ".spec.js", ".spec.jsx", ".spec.ts",
                          ".spec.tsx"]

  predicate IsTestPath(path: string) {
    var parts := Parts(path);
    var name := parts[|parts| - 1];
    "tests" in parts || "test_" <= name || exists suffix :: suffix in TEST_SUFFIXES && EndsWith(name, suffix)
  }

  // ---- plans ----------------------------------------------------------------------

  /** What one entry of `data["stories"]` holds. */
  datatype StoryData = StoryData(id: string, targetFiles: seq<string>, dependsOn: Option<seq<string>>)

  datatype UiImpact = UiImpact(touchesBackend: bool, frontendChanges: seq<string>, reason: string)
  datatype Activation = Activation(configChange: bool, location: string, effect: string)

  datatype Plan = Plan(targetFiles: seq<string>, impactPaths: seq<string>, ui: UiImpact, activation: Activation)

  datatype PlanError =
    | BadTargetFile(path: string)
    | BadImpactPath(path: string)
    | ImpactNotUnique
    | DuplicateId(id: string)
    | NotEarlier(id: string, invalid: seq<string>)
    | BadStoryFile(index: nat, path: string)
    | UnionMismatch(missing: set<string>, extra: set<string>)
    | NoFrontendChanges
    | NoReason
    | NoLocation
    | NoEffect

  function Deps(s: StoryData): seq<string> { if s.dependsOn.Some? then s.dependsOn.value else [] }

  predicate TestOnly(s: StoryData) { forall p :: p in s.targetFiles ==> IsTestPath(p) }

  function Ids(stories: seq<StoryData>, k: nat): set<string>
    requires k <= |stories|
  {
    set j | 0 <= j < k :: stories[j].id
  }

  /** The ids of the stories before k that are not test-only, in order. */
  function Implementation(stories: seq<StoryData>, k: nat): seq<string>
    requires k <= |stories|
  {
    if k == 0 then []
    else Implementation(stories, k - 1) + (if TestOnly(stories[k - 1]) then [] else [stories[k - 1].id])
  }

  function ElementsOf(s: seq<string>): set<string> { set x | x in s }

  function Without(items: seq<string>, known: set<string>): (r: seq<string>)
    ensures forall x :: x in r <==> x in items && x !in known
  {
    if items == [] then []
    else
      var r := Without(items[..|items| - 1], known);
      assert items == items[..|items| - 1] + [items[|items| - 1]];
      if items[|items| - 1] in known then r else r + [items[|items| - 1]]
  }

  function FirstBad(paths: seq<string>): (r: Option<string>)
    ensures r.None? <==> forall p :: p in paths ==> Guarded(p)
  {
    if paths == [] then None
    else if CanonicalRepositoryPath(paths[0]).None? then GuardDecides(paths[0]); Some(paths[0])
    else GuardDecides(paths[0]); FirstBad(paths[1..])
  }

  /** What is wrong with a story, given the ids before it. */
  function ProblemWith(s: StoryData, earlier: set<string>, k: nat): Option<PlanError> {
    if s.id in earlier then Some(DuplicateId(s.id))
    else if Without(Deps(s), earlier) != [] then Some(NotEarlier(s.id, Without(Deps(s), earlier)))
    else if FirstBad(s.targetFiles).Some? then Some(BadStoryFile(k, FirstBad(s.targetFiles).value))
    else None
  }

  function StoryProblem(stories: seq<StoryData>, k: nat): Option<PlanError>
    requires k < |stories|
  {
    ProblemWith(stories[k], Ids(stories, k), k)
  }

  /** How many stories pass before the first one that does not. */
  function Passed(stories: seq<StoryData>, k: nat): (n: nat)
    requires k <= |stories|
    ensures k <= n <= |stories|
    decreases |stories| - k
  {
    if k == |stories| || StoryProblem(stories, k).Some? then k else Passed(stories, k + 1)
  }

  lemma {:induction false} PassedStops(stories: seq<StoryData>, k: nat)
    requires k <= |stories|
    ensures var n := Passed(stories, k);
            && (forall j :: k <= j < n ==> StoryProblem(stories, j) == None)
            && (n < |stories| ==> StoryProblem(stories, n).Some?)
    decreases |stories| - k
  {
    if k < |stories| && StoryProblem(stories, k) == None { PassedStops(stories, k + 1); }
  }

  function StoryFiles(stories: seq<StoryData>, k: nat): set<string>
    requires k <= |stories|
  {
    set j, p | 0 <= j < k && p in stories[j].targetFiles :: p
  }

  predicate Distinct(s: seq<string>) { forall i, j :: 0 <= i < j < |s| ==> s[i] != s[j] }

  function PathsProblem(plan: Plan): Option<PlanError> {
    if FirstBad(plan.targetFiles).Some? then Some(BadTargetFile(FirstBad(plan.targetFiles).value))
    else if FirstBad(plan.impactPaths).Some? then Some(BadImpactPath(FirstBad(plan.impactPaths).value))
    else if !Distinct(plan.impactPaths) then Some(ImpactNotUnique)
    else None
  }

  function ClosingProblem(plan: Plan, storyFiles: set<string>): Option<PlanError> {
    var expected := storyFiles + ElementsOf(plan.impactPaths);
    var actual := ElementsOf(plan.targetFiles);
    if actual != expected then Some(UnionMismatch(expected - actual, actual - expected))
    else if plan.ui.touchesBackend && plan.ui.frontendChanges == [] then Some(NoFrontendChanges)
    else if !plan.ui.touchesBackend && Strip(plan.ui.reason) == "" then Some(NoReason)
    else if plan.activation.configChange && Strip(plan.activation.location) == "" then Some(NoLocation)
    else if plan.activation.configChange && Strip(plan.activation.effect) == "" then Some(NoEffect)
    else None
  }

  /** How many stories the loop completes before the checks end. */
  function Reached(plan: Plan, stories: seq<StoryData>): (n: nat)
    ensures n <= |stories|
  {
    if PathsProblem(plan).Some? then 0 else Passed(stories, 0)
  }

  function Problem(plan: Plan, stories: seq<StoryData>): Option<PlanError> {
    if PathsProblem(plan).Some? then PathsProblem(plan)
    else if Passed(stories, 0) < |stories| then StoryProblem(stories, Passed(stories, 0))
    else ClosingProblem(plan, StoryFiles(stories, |stories|))
  }

  /** A story as the loop leaves it: a test-only one also waits for every earlier
      implementation story. */
  function CompletedWith(s: StoryData, implementation: seq<string>): StoryData {
    if TestOnly(s) then s.(dependsOn := Some(Deps(s) + Without(implementation, ElementsOf(Deps(s))))) else s
  }

  function Completed(stories: seq<StoryData>, k: nat): StoryData
    requires k < |stories|
  {
    CompletedWith(stories[k], Implementation(stories, k))
  }

  function CompletedUpTo(stories: seq<StoryData>, n: nat): (r: seq<StoryData>)
    requires n <= |stories|
    ensures |r| == |stories|
    ensures forall k :: 0 <= k < |r| ==> r[k] == (if k < n then Completed(stories, k) else stories[k])
  {
    seq(|stories|, k requires 0 <= k < |stories| => if k < n then Completed(stories, k) else stories[k])
  }

  // ---- the loop --------------------------------------------------------------------

  class Story {
    const id: string
    const targetFiles: seq<string>
    var dependsOn: Option<seq<string>>

    constructor (id: string, targetFiles: seq<string>, dependsOn: Option<seq<string>>)
      ensures Data() == StoryData(id, targetFiles, dependsOn)
    {
      this.id, this.targetFiles, this.dependsOn := id, targetFiles, dependsOn;
    }

    function Data(): StoryData
      reads this
    {
      StoryData(id, targetFiles, dependsOn)
    }

    method Check(seenIds: set<string>, index: nat) returns (error: Option<PlanError>)
      ensures error == ProblemWith(Data(), seenIds, index)
    {
      if id in seenIds {
        return Some(DuplicateId(id));
      }
      var invalid := Without(Deps(Data()), seenIds);
      if invalid != [] {
        return Some(NotEarlier(id, invalid));
      }
      var bad := FirstBad(targetFiles);
      error := if bad.Some? then Some(BadStoryFile(index, bad.value)) else None;
    }

    method Complete(implementationIds: seq<string>) returns (testOnly: bool)
      modifies this
      ensures Data() == CompletedWith(old(Data()), implementationIds) && testOnly == TestOnly(old(Data()))
    {
      testOnly := TestOnly(Data());
      if testOnly {
        var dependencies := Deps(Data());
        dependsOn := Some(dependencies + Without(implementationIds, ElementsOf(dependencies)));
      }
    }
  }

  lemma NothingRead(stories: seq<StoryData>)
    ensures Ids(stories, 0) == {} && Implementation(stories, 0) == [] && ElementsOf([]) == StoryFiles(stories, 0)
  {
  }

  lemma OneMoreRead(stories: seq<StoryData>, k: nat, paths: seq<string>)
    requires k < |stories|
    ensures Ids(stories, k + 1) == Ids(stories, k) + {stories[k].id}
    ensures Implementation(stories, k + 1) ==
            if TestOnly(stories[k]) then Implementation(stories, k) else Implementation(stories, k) + [stories[k].id]
    ensures StoryProblem(stories, k) == None ==> Passed(stories, k) == Passed(stories, k + 1)
    ensures StoryProblem(stories, k).Some? ==> Passed(stories, k) == k
    ensures ElementsOf(paths) == StoryFiles(stories, k) ==>
              ElementsOf(paths + stories[k].targetFiles) == StoryFiles(stories, k + 1)
  {
    if ElementsOf(paths) == StoryFiles(stories, k) { FilesGrow(stories, k, paths); }
  }

  lemma FilesGrow(stories: seq<StoryData>, k: nat, paths: seq<string>)
    requires k < |stories| && ElementsOf(paths) == StoryFiles(stories, k)
    ensures ElementsOf(paths + stories[k].targetFiles) == StoryFiles(stories, k + 1)
  {
    forall p ensures p in ElementsOf(paths + stories[k].targetFiles) <==> p in StoryFiles(stories, k + 1) {
      assert p in ElementsOf(paths) <==> p in StoryFiles(stories, k);
    }
  }

  function DataOf(stories: seq<Story>): (r: seq<StoryData>)
    reads stories
    ensures |r| == |stories| && forall i :: 0 <= i < |r| ==> r[i] == stories[i].Data()
  {
    seq(|stories|, i requires 0 <= i < |stories| reads stories => stories[i].Data())
  }

  /** Decoded from JSON, no two entries are the same object. */
  method ValidatePlanSemantics(plan: Plan, stories: seq<Story>) returns (error: Option<PlanError>)
    requires forall i, j :: 0 <= i < j < |stories| ==> stories[i] != stories[j]
    modifies stories
    ensures error == Problem(plan, old(DataOf(stories)))
    ensures DataOf(stories) == CompletedUpTo(old(DataOf(stories)), Reached(plan, old(DataOf(stories))))
  {
    hide ProblemWith, CompletedWith, TestOnly, ClosingProblem, PathsProblem, StoryFiles, Ids, Implementation,
         ElementsOf;
    hide Passed, CompletedUpTo;
    ghost var given := DataOf(stories);
    NothingRead(given);
    assert CompletedUpTo(given, 0) == given;
    error := PathsProblem(plan);
    if error.Some? {
      return;
    }
    var storyPaths: seq<string> := [];
    var seenIds: set<string> := {};
    var implementationIds: seq<string> := [];
    for index := 0 to |stories|
      invariant Passed(given, 0) == Passed(given, index)
      invariant forall j :: 0 <= j < |stories| ==> stories[j].Data() == CompletedUpTo(given, index)[j]
      invariant seenIds == Ids(given, index)
      invariant implementationIds == Implementation(given, index)
      invariant ElementsOf(storyPaths) == StoryFiles(given, index)
    {
      var story := stories[index];
      error := story.Check(seenIds, index);
      OneMoreRead(given, index, storyPaths);
      if error.Some? {
        return;
      }
      storyPaths := storyPaths + story.targetFiles;
      var testOnly := story.Complete(implementationIds);
      if !testOnly {
        implementationIds := implementationIds + [story.id];
      }
      seenIds := seenIds + {story.id};
    }
    error := ClosingProblem(plan, ElementsOf(storyPaths));
  }

  // ---- what acceptance means ------------------------------------------------------------

  predicate UiIsStated(ui: UiImpact) {
    if ui.touchesBackend then ui.frontendChanges != [] else Strip(ui.reason) != ""
  }

  predicate ActivationIsStated(a: Activation) {
    a.configChange ==> Strip(a.location) != "" && Strip(a.effect) != ""
  }

  ghost predicate PathsAreCanonical(plan: Plan, stories: seq<StoryData>) {
    && (forall p :: p in plan.targetFiles ==> Guarded(p))
    && (forall p :: p in plan.impactPaths ==> Guarded(p))
    && StoryFilesAreCanonical(stories)
  }

  ghost predicate IdsAreUnique(stories: seq<StoryData>) {
    forall i, j :: 0 <= i < j < |stories| ==> stories[i].id != stories[j].id
  }

  /** Every dependency names a story further up the list. */
  ghost predicate ListIsTopological(stories: seq<StoryData>) {
    forall j, d :: 0 <= j < |stories| && d in Deps(stories[j]) ==> d in Ids(stories, j)
  }

  ghost predicate FilesAreTheUnion(plan: Plan, stories: seq<StoryData>) {
    ElementsOf(plan.targetFiles) == StoryFiles(stories, |stories|) + ElementsOf(plan.impactPaths)
  }

  ghost predicate IsAcceptable(plan: Plan, stories: seq<StoryData>) {
    && PathsAreCanonical(plan, stories) && Distinct(plan.impactPaths)
    && IdsAreUnique(stories) && ListIsTopological(stories)
    && FilesAreTheUnion(plan, stories)
    && UiIsStated(plan.ui) && ActivationIsStated(plan.activation)
  }

  ghost predicate StoryIsSound(stories: seq<StoryData>, j: nat)
    requires j < |stories|
  {
    && stories[j].id !in Ids(stories, j)
    && (forall d :: d in Deps(stories[j]) ==> d in Ids(stories, j))
    && (forall p :: p in stories[j].targetFiles ==> Guarded(p))
  }

  lemma StoryPasses(stories: seq<StoryData>, j: nat)
    requires j < |stories|
    ensures StoryProblem(stories, j) == None <==> StoryIsSound(stories, j)
  {
    var s := stories[j];
    var outside := Without(Deps(s), Ids(stories, j));
    assert outside != [] ==> outside[0] in outside;
  }

  lemma AllPass(stories: seq<StoryData>)
    ensures Passed(stories, 0) == |stories| <==> StoriesAreSound(stories)
  {
    hide StoryIsSound, StoryProblem;
    PassedStops(stories, 0);
    forall j | 0 <= j < |stories| ensures StoryProblem(stories, j) == None <==> StoryIsSound(stories, j) {
      StoryPasses(stories, j);
    }
  }

  ghost predicate StoriesAreSound(stories: seq<StoryData>) {
    forall j :: 0 <= j < |stories| ==> StoryIsSound(stories, j)
  }

  ghost predicate StoryFilesAreCanonical(stories: seq<StoryData>) {
    forall j, p :: 0 <= j < |stories| && p in stories[j].targetFiles ==> Guarded(p)
  }

  lemma SoundStories(stories: seq<StoryData>)
    ensures StoriesAreSound(stories) <==>
              IdsAreUnique(stories) && ListIsTopological(stories) && StoryFilesAreCanonical(stories)
  {
    hide Guarded;
    if StoriesAreSound(stories) {
      forall i, j | 0 <= i < j < |stories| ensures stories[i].id != stories[j].id { assert StoryIsSound(stories, j); }
      forall j, d | 0 <= j < |stories| && d in Deps(stories[j])
        ensures d in Ids(stories, j)
      {
        assert StoryIsSound(stories, j);
      }
      forall j, p | 0 <= j < |stories| && p in stories[j].targetFiles
        ensures Guarded(p)
      {
        assert StoryIsSound(stories, j);
      }
    }
    if IdsAreUnique(stories) && ListIsTopological(stories) && StoryFilesAreCanonical(stories) {
      forall j | 0 <= j < |stories| ensures StoryIsSound(stories, j) {
        assert forall i :: 0 <= i < j ==> stories[i].id != stories[j].id;
      }
    }
  }

  /** A plan is accepted exactly when every path is canonical, the impact paths and story ids are
      unique, every dependency points up the list, the target files are the union, and the UI and
      activation answers are given. */
  lemma AcceptedIffAcceptable(plan: Plan, stories: seq<StoryData>)
    ensures Problem(plan, stories) == None <==> IsAcceptable(plan, stories)
  {
    hide StoryIsSound, StoryProblem, Guarded, Strip, StoryFiles, ListIsTopological, IdsAreUnique, Passed;
    AllPass(stories);
    SoundStories(stories);
    PassedStops(stories, 0);
  }

  // ---- what completion does ---------------------------------------------------------------

  lemma {:induction false} SameImplementation(s: seq<StoryData>, t: seq<StoryData>, k: nat)
    requires |s| == |t| && k <= |s|
    requires forall j :: 0 <= j < |s| ==> s[j].id == t[j].id && s[j].targetFiles == t[j].targetFiles
    ensures Implementation(t, k) == Implementation(s, k)
  {
    hide TestOnly;
    if k > 0 {
      SameImplementation(s, t, k - 1);
      SameFilesSameKind(s[k - 1], t[k - 1]);
    }
  }

  lemma CompletionKeepsImplementation(stories: seq<StoryData>, k: nat)
    requires k <= |stories|
    ensures Implementation(CompletedUpTo(stories, |stories|), k) == Implementation(stories, k)
  {
    hide Implementation, TestOnly;
    SameImplementation(stories, CompletedUpTo(stories, |stories|), k);
  }

  lemma CompletionKeepsIds(stories: seq<StoryData>, k: nat)
    requires k <= |stories|
    ensures Ids(CompletedUpTo(stories, |stories|), k) == Ids(stories, k)
    ensures StoryFiles(CompletedUpTo(stories, |stories|), k) == StoryFiles(stories, k)
  {
    var t := CompletedUpTo(stories, |stories|);
    assert forall j :: 0 <= j < k ==> t[j].id == stories[j].id && t[j].targetFiles == stories[j].targetFiles;
  }

  /** What was declared stays, in front; a test-only story gains exactly the earlier
      implementation stories it had not named, any other story gains nothing. */
  lemma CompletionOnlyAdds(stories: seq<StoryData>, k: nat)
    requires k < |stories|
    ensures var t := CompletedUpTo(stories, |stories|)[k];
            && t.id == stories[k].id && t.targetFiles == stories[k].targetFiles
            && Deps(stories[k]) <= Deps(t)
            && (!TestOnly(stories[k]) ==> t == stories[k])
            && (TestOnly(stories[k]) ==>
                  forall d :: d in Deps(t) <==> d in Deps(stories[k]) || d in Implementation(stories, k))
  {
  }

  lemma CompletionIsStable(stories: seq<StoryData>)
    ensures var t := CompletedUpTo(stories, |stories|); CompletedUpTo(t, |t|) == t
  {
    hide Implementation, TestOnly;
    var t := CompletedUpTo(stories, |stories|);
    forall k | 0 <= k < |t| ensures Completed(t, k) == t[k] {
      CompletionKeepsImplementation(stories, k);
      SameFilesSameKind(stories[k], t[k]);
      if TestOnly(stories[k]) { NothingMissing(Implementation(stories, k), Deps(stories[k]), Deps(t[k])); }
    }
  }

  lemma SameFilesSameKind(s: StoryData, t: StoryData)
    requires s.targetFiles == t.targetFiles
    ensures TestOnly(s) <==> TestOnly(t)
  {
  }

  lemma NothingMissing(implementation: seq<string>, declared: seq<string>, deps: seq<string>)
    requires deps == declared + Without(implementation, ElementsOf(declared))
    ensures Without(implementation, ElementsOf(deps)) == [] && deps + Without(implementation, ElementsOf(deps)) == deps
  {
    AllKnown(implementation, ElementsOf(deps));
  }

  lemma {:induction false} AllKnown(items: seq<string>, known: set<string>)
    requires forall x :: x in items ==> x in known
    ensures Without(items, known) == []
  {
    if items != [] {
      assert items == items[..|items| - 1] + [items[|items| - 1]];
      AllKnown(items[..|items| - 1], known);
    }
  }

  /** Completing an acceptable plan keeps it acceptable. */
  lemma CompletedIsAcceptable(plan: Plan, stories: seq<StoryData>)
    requires IsAcceptable(plan, stories)
    ensures IsAcceptable(plan, CompletedUpTo(stories, |stories|))
  {
    hide Guarded, Strip, TestOnly, StoryFiles, Completed, ListIsTopological;
    CompletionKeepsIds(stories, |stories|);
    CompletedIsTopological(stories);
    var t := CompletedUpTo(stories, |stories|);
    forall j | 0 <= j < |t| ensures t[j].id == stories[j].id && t[j].targetFiles == stories[j].targetFiles {
      CompletionOnlyAdds(stories, j);
    }
  }

  lemma CompletedIsTopological(stories: seq<StoryData>)
    requires ListIsTopological(stories)
    ensures ListIsTopological(CompletedUpTo(stories, |stories|))
  {
    hide TestOnly, Completed, CompletedUpTo;
    var t := CompletedUpTo(stories, |stories|);
    forall j, d | 0 <= j < |t| && d in Deps(t[j]) ensures d in Ids(t, j) {
      CompletionKeepsIds(stories, j);
      CompletionOnlyAdds(stories, j);
      ImplementationIsEarlier(stories, j);
    }
  }

  lemma {:induction false} ImplementationIsEarlier(stories: seq<StoryData>, j: nat)
    requires j <= |stories|
    ensures forall d :: d in Implementation(stories, j) ==> d in Ids(stories, j)
    ensures forall i :: 0 <= i < j && !TestOnly(stories[i]) ==> stories[i].id in Implementation(stories, j)
  {
    hide TestOnly;
    if j > 0 { ImplementationIsEarlier(stories, j - 1); }
  }

  /** A story list in topological order holds no cycle: no edges from stories to what they depend on
      make one. */
  lemma TopologicalIsAcyclic(stories: seq<StoryData>, g: set<(string, string)>)
    requires IdsAreUnique(stories) && ListIsTopological(stories)
    requires forall e :: e in g ==> exists j :: 0 <= j < |stories| && stories[j].id == e.0 && e.1 in Deps(stories[j])
    ensures Acyclic(g)
  {
    var rank := map j | 0 <= j < |stories| :: stories[j].id := j;
    forall e | e in g ensures e.0 in rank && e.1 in rank && rank[e.1] < rank[e.0] {
      var j :| 0 <= j < |stories| && stories[j].id == e.0 && e.1 in Deps(stories[j]);
      assert e.1 in Ids(stories, j);
      var i :| 0 <= i < j && stories[i].id == e.1;
    }
    RankedIsAcyclic(g, rank);
  }

  /** An accepted plan comes out canonical: unique ids, a topological list, hence no cycle, every
      test-only story behind every earlier implementation story; and checking it again accepts
      it and changes nothing. */
  lemma AcceptedPlanIsCanonical(plan: Plan, stories: seq<StoryData>)
    requires Problem(plan, stories) == None
    ensures var t := CompletedUpTo(stories, Reached(plan, stories));
            && IdsAreUnique(t) && ListIsTopological(t)
            && (forall g: set<(string, string)> ::
                  (forall e :: e in g ==> exists j :: 0 <= j < |t| && t[j].id == e.0 && e.1 in Deps(t[j])) ==>
                    Acyclic(g))
            && (forall i, j :: 0 <= i < j < |t| && TestOnly(t[j]) && !TestOnly(t[i]) ==> t[i].id in Deps(t[j]))
            && (forall j :: 0 <= j < |t| ==> Deps(stories[j]) <= Deps(t[j]))
            && Problem(plan, t) == None && CompletedUpTo(t, Reached(plan, t)) == t
  {
    hide Guarded, Strip, TestOnly, Implementation, CompletedUpTo, Completed;
    AcceptedIffAcceptable(plan, stories);
    AcceptedReachesAll(plan, stories);
    var t := CompletedUpTo(stories, |stories|);
    CompletedIsAcceptable(plan, stories);
    AcceptedIffAcceptable(plan, t);
    AcceptedReachesAll(plan, t);
    CompletionIsStable(stories);
    forall g: set<(string, string)> |
      forall e :: e in g ==> exists j :: 0 <= j < |t| && t[j].id == e.0 && e.1 in Deps(t[j])
      ensures Acyclic(g)
    {
      TopologicalIsAcyclic(t, g);
    }
    forall j | 0 <= j < |t| ensures Deps(stories[j]) <= Deps(t[j]) { CompletionOnlyAdds(stories, j); }
    forall i, j | 0 <= i < j < |t| && TestOnly(t[j]) && !TestOnly(t[i]) ensures t[i].id in Deps(t[j]) {
      CompletionOnlyAdds(stories, i);
      CompletionOnlyAdds(stories, j);
      SameFilesSameKind(stories[i], t[i]);
      SameFilesSameKind(stories[j], t[j]);
      ImplementationIsEarlier(stories, j);
    }
  }

  lemma AcceptedReachesAll(plan: Plan, stories: seq<StoryData>)
    requires Problem(plan, stories) == None
    ensures Reached(plan, stories) == |stories|
  {
    PassedStops(stories, 0);
  }
}
