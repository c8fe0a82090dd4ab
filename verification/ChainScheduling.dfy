/** Where the edges come from: the fix-job chain the analyst may propose
    (hyqs/pipeline/incident_analyst.py), its re-derived dependencies
    (hyqs/pipeline/remediation.py), and a batch of jobs filed together (hyqs/pipeline/store.py).

    `extract` stands for `extract_scope_from_idea`: any reading of paths out of an idea. */
module ChainScheduling {
  import opened PyValues
  import opened Sorting
  import opened Graphs
  import opened DependencyMinimizer
  import opened DependencyTheorems

  const MAX_CHAIN := 4
  const MIN_IDEA := 40

  // ---- validate_action, for an action of type file_fix_jobs ---------------------

  predicate IdeaIsThick(idea: PyValue) {
    idea.PyStr? && |Strip(idea.s)| >= MIN_IDEA
  }

  predicate CoversStoriesIsValid(covers: PyValue) {
    covers.PyNone? || (covers.PyList? && forall s :: s in covers.items ==> s.PyStr?)
  }

  predicate EarlierOnly(dependsOn: PyValue, i: nat) {
    dependsOn.PyList? && forall d :: d in dependsOn.items ==> d.PyInt? && 0 <= d.n < i
  }

  /** `entry.get("depends_on", [])` */
  function DependsOn(entry: map<string, PyValue>): PyValue {
    if "depends_on" in entry then entry["depends_on"] else PyList([])
  }

  predicate EntryIsValid(entry: PyValue, i: nat) {
    && entry.PyDict?
    && IdeaIsThick(Get(entry.entries, "idea"))
    && EarlierOnly(DependsOn(entry.entries), i)
    && CoversStoriesIsValid(Get(entry.entries, "covers_stories"))
  }

  predicate ChainIsValid(chain: PyValue) {
    && chain.PyList?
    && 0 < |chain.items| <= MAX_CHAIN
    && forall i :: 0 <= i < |chain.items| ==> EntryIsValid(chain.items[i], i)
  }

  // ---- compute_chain_dependencies -------------------------------------------------

  function IdeaOf(entry: PyValue): string {
    if entry.PyDict? && Get(entry.entries, "idea").PyStr? then Get(entry.entries, "idea").s else ""
  }

  predicate IntegersOnly(items: seq<PyValue>) {
    forall d :: d in items ==> d.PyInt?
  }

  function Integers(items: seq<PyValue>): (r: seq<int>)
    requires IntegersOnly(items)
    ensures |r| == |items| && forall i :: 0 <= i < |r| ==> r[i] == items[i].n
  {
    seq(|items|, i requires 0 <= i < |items| => items[i].n)
  }

  /** `entry.get("depends_on") or []` */
  function Declared(entry: PyValue): seq<PyValue> {
    if entry.PyDict? && Get(entry.entries, "depends_on").PyList? then Get(entry.entries, "depends_on").items else []
  }

  /** Entry i waits for what it declares and for every earlier entry that shares a file. */
  ghost predicate ChainDeps(glob: Glob, extract: string -> seq<string>, entries: seq<PyValue>, i: nat, deps: seq<int>)
    requires i < |entries|
  {
    && StrictlySorted(IntLess, deps)
    && forall d :: d in deps <==>
         || PyInt(d) in Declared(entries[i])
         || (0 <= d < i && CheckManifestConflict(glob, extract(IdeaOf(entries[i])), extract(IdeaOf(entries[d]))))
  }

  predicate IntLess(a: int, b: int) { a < b }

  method ComputeChainDependencies(glob: Glob, extract: string -> seq<string>, entries: seq<PyValue>)
    returns (result: seq<seq<int>>)
    requires forall e :: e in entries ==> IntegersOnly(Declared(e))
    ensures |result| == |entries|
    ensures forall i :: 0 <= i < |entries| ==> ChainDeps(glob, extract, entries, i, result[i])
  {
    var filesByIndex: seq<seq<string>> := [];
    for k := 0 to |entries|
      invariant |filesByIndex| == k
      invariant forall j :: 0 <= j < k ==> filesByIndex[j] == extract(IdeaOf(entries[j]))
    {
      filesByIndex := filesByIndex + [extract(IdeaOf(entries[k]))];
    }
    result := [];
    for i := 0 to |entries|
      invariant |result| == i
      invariant forall j :: 0 <= j < i ==> ChainDeps(glob, extract, entries, j, result[j])
    {
      var deps := DepsOfEntry(glob, Integers(Declared(entries[i])), filesByIndex, i);
      assert forall d :: PyInt(d) in Declared(entries[i]) <==> d in Integers(Declared(entries[i])) by {
        DeclaredIntegers(Declared(entries[i]));
      }
      result := result + [deps];
    }
  }

  lemma DeclaredIntegers(items: seq<PyValue>)
    requires IntegersOnly(items)
    ensures forall d :: PyInt(d) in items <==> d in Integers(items)
  {
    var r := Integers(items);
    forall d ensures PyInt(d) in items <==> d in r {
      if PyInt(d) in items {
        var i :| 0 <= i < |items| && items[i] == PyInt(d);
        assert r[i] == d;
      }
      if d in r {
        var i :| 0 <= i < |r| && r[i] == d;
        assert items[i] in items && items[i].PyInt?;
        assert items[i] == PyInt(d);
      }
    }
  }

  method DepsOfEntry(glob: Glob, declared: seq<int>, filesByIndex: seq<seq<string>>, i: nat) returns (deps: seq<int>)
    requires i < |filesByIndex|
    ensures StrictlySorted(IntLess, deps)
    ensures forall d :: d in deps <==>
              d in declared || (0 <= d < i && CheckManifestConflict(glob, filesByIndex[i], filesByIndex[d]))
  {
    SortUniqueSorts(IntLess, declared);
    deps := SortUnique(IntLess, declared);
    for j := 0 to i
      invariant StrictlySorted(IntLess, deps)
      invariant forall d :: d in deps <==>
                  d in declared || (0 <= d < j && CheckManifestConflict(glob, filesByIndex[i], filesByIndex[d]))
    {
      if CheckManifestConflict(glob, filesByIndex[i], filesByIndex[j]) {
        InsertKeeps(IntLess, j, deps);
        deps := Insert(IntLess, j, deps);
      }
    }
  }

  // ---- create_batch: the dependency part ------------------------------------------

  datatype JobSpec = JobSpec(dependsOn: seq<int>, scope: PyValue, targetFiles: seq<string>)

  /** The scope a batch entry is scheduled by: its own, or its target files when that is unknown. */
  function EffectiveScope(spec: JobSpec): PyValue {
    if !ClassifyDependencyScope(spec.scope).known && spec.targetFiles != [] then Manifest(spec.targetFiles)
    else spec.scope
  }

  predicate IndicesInRange(specs: seq<JobSpec>) {
    forall i, d :: 0 <= i < |specs| && d in specs[i].dependsOn ==> 0 <= d < |specs|
  }

  function ScopeMap(specs: seq<JobSpec>): map<JobId, PyValue> {
    map i | 0 <= i < |specs| :: JobId(i) := EffectiveScope(specs[i])
  }

  /** Both scopes are known and some path of one matches some path of the other. */
  predicate Overlap(glob: Glob, a: JobSpec, b: JobSpec) {
    var left := ClassifyDependencyScope(EffectiveScope(a));
    var right := ClassifyDependencyScope(EffectiveScope(b));
    left.known && right.known && CheckManifestConflict(glob, left.paths, right.paths)
  }

  /** The edges handed to the minimiser: declared ones are the user's, the rest generated. */
  ghost predicate IsBatchEdge(glob: Glob, specs: seq<JobSpec>, e: Edge) {
    && 0 <= e.job.n < |specs| && 0 <= e.dep.n < |specs|
    && (e.dep.n in specs[e.job.n].dependsOn || (e.dep.n < e.job.n && Overlap(glob, specs[e.job.n], specs[e.dep.n])))
    && e.provenance == (if e.dep.n in specs[e.job.n].dependsOn then "user" else "auto")
  }

  ghost predicate BatchEdges(glob: Glob, specs: seq<JobSpec>, es: set<Edge>) {
    forall e :: e in es <==> IsBatchEdge(glob, specs, e)
  }

  ghost predicate IsBatchResult(glob: Glob, specs: seq<JobSpec>, r: Outcome) {
    exists es: set<Edge> :: BatchEdges(glob, specs, es) && IsMinimized(glob, ScopeMap(specs), es, r)
  }

  /** The edges of entry i against the entries before `prior`. */
  ghost predicate EntryEdgeUpTo(glob: Glob, specs: seq<JobSpec>, i: nat, prior: nat, e: Edge)
    requires prior <= i < |specs|
  {
    var declared := specs[i].dependsOn;
    if e.job != JobId(i) then false
    else if e.dep.n in declared then e.provenance == "user"
    else 0 <= e.dep.n < prior && Overlap(glob, specs[i], specs[e.dep.n]) && e.provenance == "auto"
  }

  method DeclaredEdges(i: nat, declared: seq<int>) returns (edges: seq<Edge>)
    ensures forall e :: e in edges <==> e.job == JobId(i) && e.dep.n in declared && e.provenance == "user"
  {
    edges := [];
    for k := 0 to |declared|
      invariant forall e :: e in edges <==> e.job == JobId(i) && e.dep.n in declared[..k] && e.provenance == "user"
    {
      var e := Edge(JobId(i), JobId(declared[k]), "user");
      assert declared[..k + 1] == declared[..k] + [declared[k]];
      forall f
        ensures f in edges + [e] <==> f.job == JobId(i) && f.dep.n in declared[..k + 1] && f.provenance == "user"
      {
        assert f == Edge(f.job, JobId(f.dep.n), f.provenance);
      }
      edges := edges + [e];
    }
    assert declared[..|declared|] == declared;
  }

  method EntryEdges(glob: Glob, specs: seq<JobSpec>, i: nat) returns (edges: seq<Edge>)
    requires i < |specs| && IndicesInRange(specs)
    ensures forall e :: e in edges <==> e.job == JobId(i) && IsBatchEdge(glob, specs, e)
  {
    hide Overlap;
    var declared := specs[i].dependsOn;
    edges := DeclaredEdges(i, declared);
    for prior := 0 to i
      invariant forall e :: e in edges <==> EntryEdgeUpTo(glob, specs, i, prior, e)
    {
      if prior !in declared && Overlap(glob, specs[i], specs[prior]) {
        edges := edges + [Edge(JobId(i), JobId(prior), "auto")];
      }
    }
  }

  method BatchDependencies(glob: Glob, specs: seq<JobSpec>) returns (r: Option<Outcome>)
    ensures r.None? <==> !IndicesInRange(specs)
    ensures r.Some? ==> IsBatchResult(glob, specs, r.value)
  {
    if !IndicesInRange(specs) {
      return None;
    }
    var edges: seq<Edge> := [];
    for i := 0 to |specs|
      invariant forall e :: e in edges <==> e.job.n < i && IsBatchEdge(glob, specs, e)
    {
      var more := EntryEdges(glob, specs, i);
      edges := edges + more;
    }
    var outcome := MinimizeAutoDependencies(glob, ScopeMap(specs), edges);
    assert BatchEdges(glob, specs, SetOf(edges));
    r := Some(outcome);
  }

  // ---- parallel safety ---------------------------------------------------------------

  /** In a filed batch any two jobs whose known scopes overlap are ordered, the later one
      waiting for the earlier; so jobs that may run side by side never share a file.
      Every declared dependency is ordered too. */
  lemma BatchIsParallelSafe(glob: Glob, specs: seq<JobSpec>, r: Outcome, i: nat, j: nat)
    requires IndicesInRange(specs) && IsBatchResult(glob, specs, r) && r.Minimal?
    requires i < |specs| && j < |specs|
    ensures j < i && Overlap(glob, specs[i], specs[j]) ==> Reaches(Out(r), JobId(i), JobId(j))
    ensures j in specs[i].dependsOn ==> Reaches(Out(r), JobId(i), JobId(j))
    ensures i != j && !Reaches(Out(r), JobId(i), JobId(j)) && !Reaches(Out(r), JobId(j), JobId(i)) ==>
              !Overlap(glob, specs[i], specs[j])
  {
    OverlapIsSymmetric(glob, specs[i], specs[j]);
    if j < i && Overlap(glob, specs[i], specs[j]) { OverlapIsOrdered(glob, specs, r, i, j); }
    if i < j && Overlap(glob, specs[i], specs[j]) { OverlapIsOrdered(glob, specs, r, j, i); }
    if j in specs[i].dependsOn { DeclaredIsOrdered(glob, specs, r, i, j); }
  }

  lemma OverlapIsSymmetric(glob: Glob, a: JobSpec, b: JobSpec)
    ensures Overlap(glob, a, b) <==> Overlap(glob, b, a)
  {
    var left := ClassifyDependencyScope(EffectiveScope(a));
    var right := ClassifyDependencyScope(EffectiveScope(b));
    ConflictIsSymmetric(glob, left.paths, right.paths, right.paths);
  }

  lemma ScopeMapAt(specs: seq<JobSpec>, i: nat)
    requires i < |specs|
    ensures JobId(i) in ScopeMap(specs) && ScopeMap(specs)[JobId(i)] == EffectiveScope(specs[i])
  {
  }

  lemma OverlapIsEdge(glob: Glob, specs: seq<JobSpec>, es: set<Edge>, e: Edge)
    requires BatchEdges(glob, specs, es) && 0 <= e.dep.n < e.job.n < |specs|
    requires Overlap(glob, specs[e.job.n], specs[e.dep.n])
    requires e.provenance == if e.dep.n in specs[e.job.n].dependsOn then "user" else "auto"
    ensures e in es
  {
    hide Overlap;
    assert IsBatchEdge(glob, specs, e);
  }

  lemma OverlapIsOrdered(glob: Glob, specs: seq<JobSpec>, r: Outcome, i: nat, j: nat)
    requires IsBatchResult(glob, specs, r) && r.Minimal?
    requires j < i < |specs| && Overlap(glob, specs[i], specs[j])
    ensures Reaches(Out(r), JobId(i), JobId(j))
  {
    var es :| BatchEdges(glob, specs, es) && IsMinimized(glob, ScopeMap(specs), es, r);
    hide IsMinimized, Reaches, CheckManifestConflict, ScopeMap, BatchEdges;
    var e := Edge(JobId(i), JobId(j), if j in specs[i].dependsOn then "user" else "auto");
    OverlapIsEdge(glob, specs, es, e);
    ScopeMapAt(specs, i);
    ScopeMapAt(specs, j);
    OrderingsKept(glob, ScopeMap(specs), es, r, e);
  }

  lemma DeclaredIsOrdered(glob: Glob, specs: seq<JobSpec>, r: Outcome, i: nat, j: nat)
    requires IsBatchResult(glob, specs, r) && r.Minimal?
    requires i < |specs| && j < |specs| && j in specs[i].dependsOn
    ensures Reaches(Out(r), JobId(i), JobId(j))
  {
    var es :| BatchEdges(glob, specs, es) && IsMinimized(glob, ScopeMap(specs), es, r);
    var e := Edge(JobId(i), JobId(j), "user");
    assert IsBatchEdge(glob, specs, e) && e in es;
    OrderingsKept(glob, ScopeMap(specs), es, r, e);
  }

  predicate SharesFile(glob: Glob, extract: string -> seq<string>, a: PyValue, b: PyValue) {
    CheckManifestConflict(glob, extract(IdeaOf(a)), extract(IdeaOf(b)))
  }

  lemma ChainPointsBackwards(glob: Glob, extract: string -> seq<string>, chain: PyValue, deps: seq<seq<int>>)
    requires ChainIsValid(chain) && |deps| == |chain.items|
    requires forall i :: 0 <= i < |deps| ==> ChainDeps(glob, extract, chain.items, i, deps[i])
    ensures forall i, d :: 0 <= i < |deps| && d in deps[i] ==> 0 <= d < i
  {
    forall i, d | 0 <= i < |deps| && d in deps[i] ensures 0 <= d < i {
      var entry := chain.items[i];
      assert EntryIsValid(entry, i) && ChainDeps(glob, extract, chain.items, i, deps[i]);
      if PyInt(d) in Declared(entry) {
        assert PyInt(d) in DependsOn(entry.entries).items;
      }
    }
  }

  /** A batch whose dependencies all point backwards has no cycle. */
  lemma ChainIsAccepted(glob: Glob, specs: seq<JobSpec>, r: Outcome)
    requires IsBatchResult(glob, specs, r)
    requires forall i, d :: 0 <= i < |specs| && d in specs[i].dependsOn ==> 0 <= d < i
    ensures r.Minimal?
  {
    var es :| BatchEdges(glob, specs, es) && IsMinimized(glob, ScopeMap(specs), es, r);
    var rank := map n | n in Nodes(Pairs(es)) :: n.n;
    forall k | k in Pairs(es) ensures k.0 in rank && k.1 in rank && rank[k.1] < rank[k.0] {
      var e: Edge :| e in es && k == (e.job, e.dep);
      assert IsBatchEdge(glob, specs, e);
    }
    RankedIsAcyclic(Pairs(es), rank);
    CycleVerdict(glob, ScopeMap(specs), es, r);
  }
}
