/** What the plan's path checks and its idea of a test (hyqs/pipeline/contracts.py) mean on the text of
    a path, and what follows for an accepted plan. */
module PlanPaths {
  import opened PyValues
  import opened PlanContract

  // ---- components ----------------------------------------------------------------------------

  /** path[i..j] stands between two slashes, or an end of the path. */
  predicate IsComponent(path: string, i: nat, j: nat) {
    && i <= j <= |path| && (forall k :: i <= k < j ==> path[k] != '/')
    && (i == 0 || path[i - 1] == '/') && (j == |path| || path[j] == '/')
  }

  ghost predicate HasComponent(path: string, c: string) {
    exists i: nat, j: nat :: IsComponent(path, i, j) && path[i..j] == c
  }

  lemma FirstComponent(path: string)
    ensures IsComponent(path, 0, |Parts(path)[0]|) && Parts(path)[0] == path[..|Parts(path)[0]|]
  {
    FirstPart(path);
    var first := Parts(path)[0];
    assert forall k :: 0 <= k < |first| ==> path[k] == first[k] && first[k] in first;
  }

  lemma ComponentIsOne(path: string, i: nat, j: nat, k: nat)
    requires IsComponent(path, i, j) && IsComponent(path, i, k)
    ensures j == k
  {
  }

  /** Some component other than the one the text starts with. */
  ghost predicate IsLater(path: string, c: string) {
    exists i: nat, j: nat :: i > 0 && IsComponent(path, i, j) && path[i..j] == c
  }

  lemma Shifted(path: string, i: nat, j: nat)
    requires path != "" && 0 < i <= j <= |path|
    ensures path[i..j] == path[1..][i - 1..j - 1]
    ensures IsComponent(path, i, j) <==> IsComponent(path[1..], i - 1, j - 1) && (i == 1 ==> path[0] == '/')
  {
  }

  lemma LaterOfTail(path: string, c: string)
    requires path != ""
    ensures IsLater(path, c) <==> IsLater(path[1..], c) || (path[0] == '/' && c == Parts(path[1..])[0])
  {
    hide Parts;
    if i: nat, j: nat :| i > 0 && IsComponent(path, i, j) && path[i..j] == c { LaterIsInTail(path, c, i, j); }
    if i: nat, j: nat :| i > 0 && IsComponent(path[1..], i, j) && path[1..][i..j] == c { TailIsInPath(path, i, j); }
    if path[0] == '/' && c == Parts(path[1..])[0] {
      FirstComponent(path[1..]);
      TailIsInPath(path, 0, |c|);
    }
  }

  lemma LaterIsInTail(path: string, c: string, i: nat, j: nat)
    requires i > 0 && IsComponent(path, i, j) && path[i..j] == c
    ensures path != "" && (IsLater(path[1..], c) || (path[0] == '/' && c == Parts(path[1..])[0]))
  {
    hide IsComponent, Parts;
    ComponentFits(path, i, j);
    Shifted(path, i, j);
    FirstComponent(path[1..]);
    if i == 1 { ComponentIsOne(path[1..], 0, j - 1, |Parts(path[1..])[0]|); }
  }

  lemma ComponentFits(path: string, i: nat, j: nat)
    requires IsComponent(path, i, j)
    ensures i <= j <= |path| && (i > 0 ==> path != "")
  {
  }

  lemma TailIsInPath(path: string, i: nat, j: nat)
    requires path != "" && IsComponent(path[1..], i, j) && (i == 0 ==> path[0] == '/')
    ensures i <= j < |path| && IsLater(path, path[1..][i..j])
  {
    hide IsComponent;
    ComponentFits(path[1..], i, j);
    ShiftedBack(path, i, j);
  }

  lemma ShiftedBack(path: string, i: nat, j: nat)
    requires path != "" && i <= j < |path| && IsComponent(path[1..], i, j) && (i == 0 ==> path[0] == '/')
    ensures path[i + 1..j + 1] == path[1..][i..j] && IsComponent(path, i + 1, j + 1)
  {
    Shifted(path, i + 1, j + 1);
  }

  lemma {:induction false} LaterParts(path: string, c: string)
    ensures c in Parts(path)[1..] <==> IsLater(path, c)
    decreases |path|
  {
    if path != "" {
      LaterParts(path[1..], c);
      LaterOfTail(path, c);
      PartsUnfold(path);
      var parts := Parts(path[1..]);
      assert parts == [parts[0]] + parts[1..];
    }
  }

  lemma PartsUnfold(path: string)
    requires path != ""
    ensures Parts(path)[1..] == if path[0] == '/' then Parts(path[1..]) else Parts(path[1..])[1..]
  {
  }

  /** The parts are the components. */
  lemma PartsAreComponents(path: string, c: string)
    ensures c in Parts(path) <==> HasComponent(path, c)
  {
    var parts := Parts(path);
    assert parts == [parts[0]] + parts[1..];
    FirstComponent(path);
    LaterParts(path, c);
    if i: nat, j: nat :| IsComponent(path, i, j) && path[i..j] == c {
      if i == 0 { ComponentIsOne(path, 0, j, |parts[0]|); }
    }
  }

  /** The last part is what follows the last slash. */
  lemma {:induction false} LastPart(path: string) returns (i: nat)
    ensures IsComponent(path, i, |path|) && Parts(path)[|Parts(path)| - 1] == path[i..]
    decreases |path|
  {
    if path == "" {
      i := 0;
    } else {
      var k := LastPart(path[1..]);
      PartsUnfold(path);
      FirstComponent(path);
      var parts, rest := Parts(path), Parts(path[1..]);
      if |parts| == 1 {
        i := 0;
        WholeIsPart(path);
      } else {
        assert parts[|parts| - 1] == parts[1..][|parts| - 2];
        i := k + 1;
        if path[0] != '/' { LaterStart(path[1..], k); }
        Shifted(path, i, |path|);
      }
    }
  }

  lemma WholeIsPart(path: string)
    requires |Parts(path)| == 1
    ensures IsComponent(path, 0, |path|) && Parts(path)[0] == path
  {
    PartsJoin(path);
    FirstPart(path);
    assert forall k :: 0 <= k < |path| ==> path[k] in path;
  }

  /** With more than one part, the last does not start the text. */
  lemma LaterStart(path: string, k: nat)
    requires IsComponent(path, k, |path|) && |Parts(path)| > 1 && Parts(path)[|Parts(path)| - 1] == path[k..]
    ensures k > 0
  {
    if k == 0 {
      FirstComponent(path);
      ComponentIsOne(path, 0, |path|, |Parts(path)[0]|);
      OnlyPart(path);
    }
  }

  lemma {:induction false} OnlyPart(path: string)
    requires forall k :: 0 <= k < |path| ==> path[k] != '/'
    ensures |Parts(path)| == 1
  {
    if path != "" {
      OnlyPart(path[1..]);
    }
  }

  // ---- what a test path looks like ------------------------------------------------------------

  predicate StartsWith(s: string, prefix: string) { |prefix| <= |s| && s[..|prefix|] == prefix }

  predicate HasAt(s: string, m: string, i: nat) { i + |m| <= |s| && s[i..i + |m|] == m }

  predicate EndsIn(s: string, suffix: string) { |suffix| <= |s| && s[|s| - |suffix|..] == suffix }

  /** No slash from i on. */
  predicate IsTail(path: string, i: nat) { i <= |path| && forall k :: i <= k < |path| ==> path[k] != '/' }

  /** What follows the last slash, or the whole when there is none, starts so. */
  ghost predicate NameStartsWith(path: string, prefix: string) {
    || (IsTail(path, 0) && StartsWith(path, prefix))
    || exists i: nat :: i > 0 && IsTail(path, i) && path[i - 1] == '/' && StartsWith(path[i..], prefix)
  }

  /** A directory called tests, a file name that starts with test_, or one of eight endings. */
  ghost predicate LooksLikeTest(path: string) {
    || NamesTests(path) || NameStartsWith(path, "test_")
    || EndsIn(path, ".test.js") || EndsIn(path, ".test.jsx") || EndsIn(path, ".test.ts") || EndsIn(path, ".test.tsx")
    || EndsIn(path, ".spec.js") || EndsIn(path, ".spec.jsx") || EndsIn(path, ".spec.ts") || EndsIn(path, ".spec.tsx")
  }

  ghost predicate NamesTests(path: string) {
    || path == "tests" || StartsWith(path, "tests/") || EndsIn(path, "/tests")
    || exists i: nat :: HasAt(path, "/tests/", i)
  }

  lemma TestsComponent(path: string)
    ensures "tests" in Parts(path) <==> NamesTests(path)
  {
    hide NamesTests, Parts;
    PartsAreComponents(path, "tests");
    if HasComponent(path, "tests") {
      var i: nat, j: nat :| IsComponent(path, i, j) && path[i..j] == "tests";
      TestsStands(path, i, j);
    }
    if NamesTests(path) { TestsIsComponent(path); }
  }

  lemma TestsIsComponent(path: string)
    requires NamesTests(path)
    ensures HasComponent(path, "tests")
  {
    hide HasAt;
    if path == "tests" {
      assert IsComponent(path, 0, 5) && path[0..5] == "tests";
    } else if StartsWith(path, "tests/") {
      TestsAt(path, 0);
    } else if EndsIn(path, "/tests") {
      TestsAt(path, |path| - 5);
    } else {
      var i: nat :| HasAt(path, "/tests/", i);
      TestsAt(path, i + 1);
    }
  }

  lemma TestsStands(path: string, i: nat, j: nat)
    requires IsComponent(path, i, j) && path[i..j] == "tests"
    ensures NamesTests(path)
  {
    assert j == i + 5;
    if i > 0 && j < |path| {
      assert path[i - 1..i + 6] == [path[i - 1]] + path[i..j] + [path[j]];
      assert HasAt(path, "/tests/", i - 1);
    } else if i > 0 {
      assert path[i - 1..] == [path[i - 1]] + path[i..j];
    } else if j < |path| {
      assert path[..6] == path[0..5] + [path[5]];
    } else {
      assert path == path[0..5];
    }
  }

  /** A word of a piece of the path, with a slash or an end of the path on either side. */
  lemma WordStands(path: string, m: string, k: nat, at: nat)
    requires HasAt(path, m, k) && at + 5 <= |m| && m[at..at + 5] == "tests"
    requires if at == 0 then k == 0 else m[at - 1] == '/'
    requires if at + 5 == |m| then k + |m| == |path| else m[at + 5] == '/'
    ensures IsComponent(path, k + at, k + at + 5) && path[k + at..k + at + 5] == "tests"
  {
    forall x | 0 <= x < |m| ensures path[k + x] == m[x] { assert path[k..k + |m|][x] == m[x]; }
    assert path[k + at..k + at + 5] == m[at..at + 5];
    forall y | k + at <= y < k + at + 5 ensures path[y] != '/' {
      var x := y - (k + at);
      assert m[at..at + 5][x] == m[at + x] == "tests"[x];
    }
  }

  lemma TestsAt(path: string, i: nat)
    requires || (i == 0 && StartsWith(path, "tests/")) || (i == |path| - 5 && EndsIn(path, "/tests"))
             || (i > 0 && HasAt(path, "/tests/", i - 1))
    ensures HasComponent(path, "tests")
  {
    if i == 0 && StartsWith(path, "tests/") {
      assert path[0..6] == path[..6];
      WordStands(path, "tests/", 0, 0);
    } else if i == |path| - 5 && EndsIn(path, "/tests") {
      assert path[i - 1..i + 5] == path[i - 1..];
      WordStands(path, "/tests", i - 1, 1);
    } else {
      WordStands(path, "/tests/", i - 1, 1);
    }
  }

  lemma TailsMeet(path: string, i: nat, k: nat)
    requires IsTail(path, i) && IsTail(path, k)
    requires (i == 0 || path[i - 1] == '/') && (k == 0 || path[k - 1] == '/')
    ensures i == k
  {
  }

  /** The name is the part behind the last slash, wherever one looks for it. */
  lemma NameStarts(path: string, prefix: string)
    ensures prefix <= Parts(path)[|Parts(path)| - 1] <==> NameStartsWith(path, prefix)
  {
    var k := LastPart(path);
    assert IsTail(path, k) && path[0..] == path;
    if IsTail(path, 0) && StartsWith(path, prefix) { TailsMeet(path, 0, k); }
    if i: nat :| i > 0 && IsTail(path, i) && path[i - 1] == '/' && StartsWith(path[i..], prefix) {
      TailsMeet(path, i, k);
    }
  }

  lemma NoSlashInEnd(path: string, suffix: string)
    requires EndsIn(path, suffix) && forall k :: 0 <= k < |suffix| ==> suffix[k] != '/'
    ensures |suffix| <= |path| && IsTail(path, |path| - |suffix|)
  {
    var from := |path| - |suffix|;
    forall x | from <= x < |path| ensures path[x] != '/' { assert path[from..][x - from] == path[x]; }
  }

  lemma EndOfTail(path: string, k: nat, suffix: string)
    requires k + |suffix| <= |path|
    ensures EndsWith(path[k..], suffix) <==> EndsIn(path, suffix)
  {
    assert path[k..][|path[k..]| - |suffix|..] == path[|path| - |suffix|..];
  }

  lemma NameEnds(path: string, suffix: string)
    requires forall k :: 0 <= k < |suffix| ==> suffix[k] != '/'
    ensures EndsWith(Parts(path)[|Parts(path)| - 1], suffix) <==> EndsIn(path, suffix)
  {
    hide EndsIn, EndsWith, Parts;
    var k := LastPart(path);
    if EndsIn(path, suffix) {
      NoSlashInEnd(path, suffix);
      TailStarts(path, k, |path| - |suffix|);
    }
    if k + |suffix| <= |path| {
      EndOfTail(path, k, suffix);
    } else {
      TooLong(path[k..], suffix);
    }
  }

  lemma TailStarts(path: string, k: nat, i: nat)
    requires k <= |path| && (k == 0 || path[k - 1] == '/') && IsTail(path, i)
    ensures k <= i
  {
  }

  lemma TooLong(name: string, suffix: string)
    requires |name| < |suffix|
    ensures !EndsWith(name, suffix)
  {
  }

  /** A path counts as a test's exactly when it looks like one. */
  lemma TestPathIff(path: string)
    ensures IsTestPath(path) <==> LooksLikeTest(path)
  {
    hide Parts, StartsWith, EndsIn, EndsWith;
    TestsComponent(path);
    NameStarts(path, "test_");
    forall suffix | suffix in TEST_SUFFIXES
      ensures EndsWith(Parts(path)[|Parts(path)| - 1], suffix) <==> EndsIn(path, suffix)
    {
      NameEnds(path, suffix);
    }
    SuffixesAre(path);
  }

  lemma SuffixesAre(path: string)
    ensures (exists s :: s in TEST_SUFFIXES && EndsIn(path, s)) <==>
            || EndsIn(path, ".test.js") || EndsIn(path, ".test.jsx") || EndsIn(path, ".test.ts")
            || EndsIn(path, ".test.tsx") || EndsIn(path, ".spec.js") || EndsIn(path, ".spec.jsx")
            || EndsIn(path, ".spec.ts") || EndsIn(path, ".spec.tsx")
  {
    hide EndsIn;
    assert TEST_SUFFIXES[0] == ".test.js" && TEST_SUFFIXES[1] == ".test.jsx" && TEST_SUFFIXES[2] == ".test.ts";
    assert TEST_SUFFIXES[3] == ".test.tsx" && TEST_SUFFIXES[4] == ".spec.js" && TEST_SUFFIXES[5] == ".spec.jsx";
    assert TEST_SUFFIXES[6] == ".spec.ts" && TEST_SUFFIXES[7] == ".spec.tsx" && |TEST_SUFFIXES| == 8;
  }

  // ---- what an accepted plan is --------------------------------------------------------------

  /** A safe path inside the repository, as written. */
  ghost predicate IsCanonicalText(path: string) {
    && path != "" && path[0] != '/' && path[|path| - 1] != '/'
    && !(|path| >= 2 && ('a' <= path[0] <= 'z' || 'A' <= path[0] <= 'Z') && path[1] == ':')
    && (forall i :: 0 <= i < |path| ==> path[i] != '\\' && path[i] != '\n' && path[i] != '\r')
    && forall i: nat, j: nat :: IsComponent(path, i, j) ==>
         path[i..j] != "" && path[i..j] != "." && path[i..j] != ".."
  }

  lemma GuardedIff(path: string)
    ensures Guarded(path) <==> IsCanonicalText(path)
  {
    hide Parts;
    if Guarded(path) {
      forall i: nat, j: nat | IsComponent(path, i, j) ensures Plain(path[i..j]) {
        PartsAreComponents(path, path[i..j]);
      }
    }
    if IsCanonicalText(path) {
      forall c | c in Parts(path) ensures Plain(c) {
        PartsAreComponents(path, c);
      }
      CharsAreIn(path);
    }
  }

  lemma CharsAreIn(path: string)
    ensures forall c :: c in path <==> exists i :: 0 <= i < |path| && path[i] == c
  {
  }

  /** Something other than white space. */
  ghost predicate SaysSomething(text: string) {
    exists i :: 0 <= i < |text| && text[i] != ' ' && !('\t' <= text[i] <= '\r') && !('\U{1c}' <= text[i] <= '\U{1f}')
  }

  lemma StripIff(text: string)
    ensures Strip(text) != "" <==> SaysSomething(text)
  {
    var i, j := StripIs(text);
    if SaysSomething(text) {
      var k :| 0 <= k < |text| && !IsSpace(text[k]);
    }
  }

  ghost predicate DependsOn(s: StoryData, d: string) { s.dependsOn.Some? && d in s.dependsOn.value }

  ghost predicate IsSound(plan: Plan, stories: seq<StoryData>) {
    && (forall p :: p in plan.targetFiles || p in plan.impactPaths ==> IsCanonicalText(p))
    && (forall j, p :: 0 <= j < |stories| && p in stories[j].targetFiles ==> IsCanonicalText(p))
    && (forall i, j :: 0 <= i < j < |plan.impactPaths| ==> plan.impactPaths[i] != plan.impactPaths[j])
    && (forall i, j :: 0 <= i < j < |stories| ==> stories[i].id != stories[j].id)
    && (forall j, d :: 0 <= j < |stories| && DependsOn(stories[j], d) ==> exists i :: 0 <= i < j && stories[i].id == d)
    && (forall p :: p in plan.targetFiles <==>
          p in plan.impactPaths || exists j :: 0 <= j < |stories| && p in stories[j].targetFiles)
    && (if plan.ui.touchesBackend then plan.ui.frontendChanges != [] else SaysSomething(plan.ui.reason))
    && (plan.activation.configChange ==>
          SaysSomething(plan.activation.location) && SaysSomething(plan.activation.effect))
  }

  /** The acceptance condition, told from the plan alone. */
  lemma AcceptedIffSound(plan: Plan, stories: seq<StoryData>)
    ensures Problem(plan, stories) == None <==> IsSound(plan, stories)
  {
    hide Problem, Guarded, IsCanonicalText, Strip, SaysSomething, DependsOn;
    AcceptedIffAcceptable(plan, stories);
    forall p ensures Guarded(p) <==> IsCanonicalText(p) { GuardedIff(p); }
    StripIff(plan.ui.reason);
    StripIff(plan.activation.location);
    StripIff(plan.activation.effect);
    forall s: StoryData, d ensures d in Deps(s) <==> DependsOn(s, d) { DepsAre(s, d); }
    assert FilesAreTheUnion(plan, stories) <==>
           forall p :: p in plan.targetFiles <==>
             p in plan.impactPaths || exists j :: 0 <= j < |stories| && p in stories[j].targetFiles by {
      UnionIs(plan, stories);
    }
  }

  lemma DepsAre(s: StoryData, d: string)
    ensures d in Deps(s) <==> DependsOn(s, d)
  {
  }

  lemma UnionIs(plan: Plan, stories: seq<StoryData>)
    ensures FilesAreTheUnion(plan, stories) <==>
            forall p :: p in plan.targetFiles <==>
              p in plan.impactPaths || exists j :: 0 <= j < |stories| && p in stories[j].targetFiles
  {
    var all := StoryFiles(stories, |stories|) + ElementsOf(plan.impactPaths);
    assert forall p :: p in ElementsOf(plan.targetFiles) <==> p in plan.targetFiles;
    assert forall p :: p in all <==>
             p in plan.impactPaths || exists j :: 0 <= j < |stories| && p in stories[j].targetFiles;
  }

  ghost predicate OnlyTests(s: StoryData) { forall p :: p in s.targetFiles ==> LooksLikeTest(p) }

  lemma OnlyTestsIff(s: StoryData)
    ensures TestOnly(s) <==> OnlyTests(s)
  {
    forall p ensures IsTestPath(p) <==> LooksLikeTest(p) { TestPathIff(p); }
  }

  /** An accepted plan: a story of nothing but tests comes out depending on every earlier story with
      anything else; it gains just those, and no other story changes. */
  lemma TestsComeLast(plan: Plan, stories: seq<StoryData>, k: nat)
    requires Problem(plan, stories) == None && k < |stories|
    ensures var t := CompletedUpTo(stories, Reached(plan, stories))[k];
            && t.id == stories[k].id && t.targetFiles == stories[k].targetFiles
            && (!OnlyTests(stories[k]) ==> t == stories[k])
            && (OnlyTests(stories[k]) ==>
                  forall d :: DependsOn(t, d) <==>
                    DependsOn(stories[k], d) || exists i :: 0 <= i < k && stories[i].id == d && !OnlyTests(stories[i]))
            && (stories[k].dependsOn.Some? && t.dependsOn.Some? ==> stories[k].dependsOn.value <= t.dependsOn.value)
  {
    hide OnlyTests, TestOnly, Problem, Implementation;
    AcceptedReachesAll(plan, stories);
    CompletionOnlyAdds(stories, k);
    var t := CompletedUpTo(stories, |stories|)[k];
    forall i | 0 <= i < |stories| ensures TestOnly(stories[i]) <==> OnlyTests(stories[i]) { OnlyTestsIff(stories[i]); }
    forall d
      ensures d in Implementation(stories, k) <==> exists i :: 0 <= i < k && stories[i].id == d && !TestOnly(stories[i])
    {
      ImplementationIs(stories, k, d);
    }
    forall d ensures (d in Deps(t) <==> DependsOn(t, d)) && (d in Deps(stories[k]) <==> DependsOn(stories[k], d)) {
      DepsAre(t, d);
      DepsAre(stories[k], d);
    }
  }

  lemma {:induction false} ImplementationIs(stories: seq<StoryData>, k: nat, d: string)
    requires k <= |stories|
    ensures d in Implementation(stories, k) <==> exists i :: 0 <= i < k && stories[i].id == d && !TestOnly(stories[i])
  {
    hide TestOnly;
    if k > 0 { ImplementationIs(stories, k - 1, d); }
  }
}
