/** Chains and batches of jobs told from the values they come as: what the analyst may propose
    (hyqs/pipeline/incident_analyst.py), which files an entry names, and what is ordered for it
    (hyqs/pipeline/remediation.py, hyqs/pipeline/store.py). */
module ChainFiles {
  import opened PyValues
  import opened Graphs
  import opened DependencyMinimizer
  import opened DependencyTheorems
  import opened ChainScheduling
  import opened JobDependencies
  import opened RemediationFiling

  // ---- validate_action on the raw value --------------------------------------------------------

  predicate IsBlank(c: char) { c == ' ' || '\t' <= c <= '\r' || '\U{1c}' <= c <= '\U{1f}' }

  /** From its first to its last character that is no white space, the text is 40 long or more. */
  ghost predicate IsLongText(text: string) {
    exists i, j :: 0 <= i <= j < |text| && !IsBlank(text[i]) && !IsBlank(text[j]) && j - i + 1 >= 40
  }

  ghost predicate IsIndexBelow(v: PyValue, i: nat) { v.PyInt? && 0 <= v.n && v.n < i }

  ghost predicate MayBeEntry(v: PyValue, i: nat) {
    && v.PyDict?
    && "idea" in v.entries && v.entries["idea"].PyStr? && IsLongText(v.entries["idea"].s)
    && ("depends_on" in v.entries ==>
          v.entries["depends_on"].PyList? && forall d :: d in v.entries["depends_on"].items ==> IsIndexBelow(d, i))
    && ("covers_stories" in v.entries && v.entries["covers_stories"] != PyNone ==>
          v.entries["covers_stories"].PyList? && forall x :: x in v.entries["covers_stories"].items ==> x.PyStr?)
  }

  /** A chain is accepted exactly when it is a list of one to four such entries. */
  lemma ChainIsValidIff(chain: PyValue)
    ensures ChainIsValid(chain) <==>
            && chain.PyList? && 1 <= |chain.items| <= 4
            && forall i :: 0 <= i < |chain.items| ==> MayBeEntry(chain.items[i], i)
  {
    hide EntryIsValid, MayBeEntry;
    if chain.PyList? {
      forall i | 0 <= i < |chain.items| ensures EntryIsValid(chain.items[i], i) <==> MayBeEntry(chain.items[i], i) {
        EntryIsValidIff(chain.items[i], i);
      }
    }
  }

  lemma EntryIsValidIff(v: PyValue, i: nat)
    ensures EntryIsValid(v, i) <==> MayBeEntry(v, i)
  {
    hide Strip, IsLongText;
    if v.PyDict? && "idea" in v.entries && v.entries["idea"].PyStr? { LongTextIff(v.entries["idea"].s); }
  }

  lemma LongTextIff(text: string)
    ensures |Strip(text)| >= 40 <==> IsLongText(text)
  {
    hide Strip;
    var i, j := StripIs(text);
    forall c ensures IsSpace(c) <==> IsBlank(c) {}
    if |Strip(text)| >= 40 { assert !IsBlank(text[i]) && !IsBlank(text[j - 1]) && (j - 1) - i + 1 >= 40; }
  }

  // ---- an accepted chain, once filed ------------------------------------------------------------

  /** An entry of an accepted chain names the files its idea names, and declares what it says. */
  lemma EntryIs(chain: PyValue, i: nat)
    requires ChainIsValid(chain) && i < |chain.items|
    ensures chain.items[i].PyDict? && "idea" in chain.items[i].entries && chain.items[i].entries["idea"].PyStr?
    ensures IdeaOf(chain.items[i]) == chain.items[i].entries["idea"].s
    ensures forall d :: d in Declared(chain.items[i]) <==>
              && "depends_on" in chain.items[i].entries && chain.items[i].entries["depends_on"].PyList?
              && d in chain.items[i].entries["depends_on"].items
  {
    hide IdeaIsThick;
    assert EntryIsValid(chain.items[i], i);
    IdeaIsText(chain.items[i].entries);
  }

  lemma IdeaIsText(entry: map<string, PyValue>)
    requires IdeaIsThick(Get(entry, "idea"))
    ensures "idea" in entry && entry["idea"].PyStr?
  {
  }

  ghost predicate FilesMeet(glob: Glob, one: seq<string>, two: seq<string>) {
    exists p, q :: p in one && q in two && (p == q || glob(p, q) || glob(q, p))
  }

  /** Once an accepted chain is filed and minimised, told from its text: an entry waits for every
      entry it declares, and of two ideas that name meeting files the later waits for the earlier. */
  lemma FiledIdeasAreOrdered(glob: Glob, extract: string -> seq<string>, chain: PyValue, scopes: map<JobId, PyValue>,
                             project: set<JobId>, incident: JobId, specs: seq<FixSpec>, ids: seq<JobId>,
                             before: Rows, after: Rows, i: nat, j: nat)
    requires ChainIsValid(chain) && |specs| == |chain.items| && IsFiling(before.Keys, incident, specs, ids)
    requires forall k :: 0 <= k < |specs| ==> ChainDeps(glob, extract, chain.items, k, specs[k].dependsOnIndexes)
    requires IsFiled(glob, scopes, project, incident, specs, ids, before, after)
    requires j < i < |specs|
    ensures chain.items[i].PyDict? && chain.items[j].PyDict?
    ensures var one, two := chain.items[i].entries, chain.items[j].entries;
            && "idea" in one && one["idea"].PyStr? && "idea" in two && two["idea"].PyStr?
            && (FilesMeet(glob, extract(one["idea"].s), extract(two["idea"].s)) ==> (ids[i], ids[j]) in after)
            && ("depends_on" in one && one["depends_on"].PyList? && PyInt(j) in one["depends_on"].items ==>
                  (ids[i], ids[j]) in after)
  {
    hide IsFiled, AreFresh;
    assert IsAnalystChain(glob, extract, chain, specs);
    hide ChainIsValid, ChainDeps;
    FiledEntriesAreOrdered(glob, extract, chain, scopes, project, incident, specs, ids, before, after, i, j);
    EntryIs(chain, i);
    EntryIs(chain, j);
    ConflictIff(glob, extract(IdeaOf(chain.items[i])), extract(IdeaOf(chain.items[j])));
  }

  lemma ConflictIff(glob: Glob, one: seq<string>, two: seq<string>)
    ensures CheckManifestConflict(glob, one, two) <==> FilesMeet(glob, one, two)
  {
  }

  // ---- batches --------------------------------------------------------------------------------

  /** A job of a batch works on the files its scope lists, or, when it lists none, on its target
      files. */
  ghost predicate WorksOn(spec: JobSpec, path: string) {
    if exists p :: Lists(spec.scope, p) then Lists(spec.scope, path) else path != "" && path in spec.targetFiles
  }

  ghost predicate WorkMeets(glob: Glob, a: JobSpec, b: JobSpec) {
    exists p, q :: WorksOn(a, p) && WorksOn(b, q) && (p == q || glob(p, q) || glob(q, p))
  }

  lemma EffectiveScopeLists(spec: JobSpec)
    ensures forall p :: Lists(EffectiveScope(spec), p) <==> WorksOn(spec, p)
  {
    hide Lists, ClassifyDependencyScope, Manifest;
    ScopeIsItsList(spec.scope);
    TargetsAreListed(spec.targetFiles);
  }

  lemma TargetsAreListed(paths: seq<string>)
    ensures forall p :: Lists(Manifest(paths), p) <==> p != "" && p in paths
  {
    var d: map<string, PyValue> := map["allowed_paths" := PyList(AsStrings(paths))];
    assert "scope" !in d && Manifest(paths) == PyDict(d);
    AsStringsHolds(paths);
    hide AsStrings;
    assert IsScopeDict(Manifest(paths), d);
    forall p ensures Lists(Manifest(paths), p) <==> p != "" && p in paths {
      if Lists(Manifest(paths), p) {
        var e: map<string, PyValue> :| IsScopeDict(Manifest(paths), e) && "allowed_paths" in e &&
                                       e["allowed_paths"].PyList? && PyStr(p) in e["allowed_paths"].items;
        assert e == d;
      }
    }
  }

  lemma OverlapIff(glob: Glob, a: JobSpec, b: JobSpec)
    ensures Overlap(glob, a, b) <==> WorkMeets(glob, a, b)
  {
    hide ClassifyDependencyScope, EffectiveScope, WorksOn, Lists;
    var left, right := ClassifyDependencyScope(EffectiveScope(a)), ClassifyDependencyScope(EffectiveScope(b));
    ScopeIsItsList(EffectiveScope(a));
    ScopeIsItsList(EffectiveScope(b));
    EffectiveScopeLists(a);
    EffectiveScopeLists(b);
    assert forall p :: p in left.paths <==> WorksOn(a, p);
    assert forall q :: q in right.paths <==> WorksOn(b, q);
    ConflictIff(glob, left.paths, right.paths);
  }

  /** In a filed batch the later of two jobs that work on meeting files waits for the earlier; so jobs
      that may run side by side share none. */
  lemma BatchSharesNoFile(glob: Glob, specs: seq<JobSpec>, r: Outcome, i: nat, j: nat)
    requires (forall k, d :: 0 <= k < |specs| && d in specs[k].dependsOn ==> 0 <= d < |specs|)
    requires IsBatchResult(glob, specs, r) && r.Minimal? && j < i < |specs|
    ensures WorkMeets(glob, specs[i], specs[j]) ==> Reaches(Out(r), JobId(i), JobId(j))
    ensures j in specs[i].dependsOn ==> Reaches(Out(r), JobId(i), JobId(j))
    ensures i in specs[j].dependsOn ==> Reaches(Out(r), JobId(j), JobId(i))
  {
    hide IsBatchResult, Reaches, WorkMeets;
    assert IndicesInRange(specs);
    BatchIsParallelSafe(glob, specs, r, i, j);
    BatchIsParallelSafe(glob, specs, r, j, i);
    OverlapIff(glob, specs[i], specs[j]);
  }
}
