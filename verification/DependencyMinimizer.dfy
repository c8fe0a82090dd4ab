/** `minimize_auto_dependencies` and the manifest tests it uses (hyqs/pipeline/collision.py).

    `glob` stands for `fnmatch`: every statement holds for every pattern matcher. */
module DependencyMinimizer {
  import opened PyValues
  import opened Sorting
  import opened Graphs
  import opened Bits

  type Glob = (string, string) -> bool

  datatype JobId = JobId(n: int)

  datatype Edge = Edge(job: JobId, dep: JobId, provenance: string)

  datatype Outcome =
    | Minimal(edges: seq<Edge>)
    | DependencyCycle
    | UnknownProvenance(provenance: string)

  datatype DependencyScope = DependencyScope(known: bool, paths: seq<string>)

  // ---- manifests -------------------------------------------------------------

  predicate CheckManifestConflict(glob: Glob, a: seq<string>, b: seq<string>) {
    a != [] && b != [] &&
    exists x, y :: x in a && y in b && (x == y || glob(x, y) || glob(y, x))
  }

  /** Whichever way round two manifests are compared, the answer is the same; only
      the elements matter; and an empty manifest conflicts with nothing. */
  lemma ConflictIsSymmetric(glob: Glob, a: seq<string>, b: seq<string>, c: seq<string>)
    requires forall x :: x in b <==> x in c
    ensures CheckManifestConflict(glob, a, b) <==> CheckManifestConflict(glob, c, a)
    ensures !CheckManifestConflict(glob, a, [])
    ensures (exists x :: x in a && x in b) ==> CheckManifestConflict(glob, a, b)
  {
    if CheckManifestConflict(glob, a, b) {
      var x, y :| x in a && y in b && (x == y || glob(x, y) || glob(y, x));
      assert y in c;
    }
    if CheckManifestConflict(glob, c, a) {
      var x, y :| x in c && y in a && (x == y || glob(x, y) || glob(y, x));
      assert x in b;
    }
  }

  function NonEmptyStrings(items: seq<PyValue>): (r: seq<string>)
    ensures forall s :: s in r <==> s != "" && PyStr(s) in items
  {
    if items == [] then []
    else
      var rest := NonEmptyStrings(items[1..]);
      assert items == [items[0]] + items[1..];
      if items[0].PyStr? && items[0].s != "" then [items[0].s] + rest else rest
  }

  function ClassifyDependencyScope(value: PyValue): DependencyScope {
    var scope := if value.PyDict? && "scope" in value.entries then value.entries["scope"] else value;
    if !scope.PyDict? then DependencyScope(false, [])
    else
      var raw := Get(scope.entries, "allowed_paths");
      if !raw.PyList? then DependencyScope(false, [])
      else
        var paths := Dedup(NonEmptyStrings(raw.items));
        DependencyScope(paths != [], paths)
  }

  /** The manifest a bare list of paths denotes, read back by the classifier. */
  lemma ClassifyManifest(paths: seq<string>)
    requires forall p :: p in paths ==> p != ""
    ensures var scope := ClassifyDependencyScope(Manifest(paths));
            && scope.known == (paths != [])
            && (forall p :: p in scope.paths <==> p in paths)
            && forall i, j :: 0 <= i < j < |scope.paths| ==> scope.paths[i] != scope.paths[j]
  {
    var d: map<string, PyValue> := map["allowed_paths" := PyList(AsStrings(paths))];
    assert "scope" !in d;
    AsStringsHolds(paths);
    var kept := NonEmptyStrings(AsStrings(paths));
    assert forall p :: p in kept <==> p in paths;
    assert forall i :: 0 <= i < |kept| ==> kept[i] in paths;
    if paths != [] {
      assert paths[0] in kept;
    }
  }

  function AsStrings(paths: seq<string>): seq<PyValue> {
    if paths == [] then [] else [PyStr(paths[0])] + AsStrings(paths[1..])
  }

  lemma {:induction false} AsStringsHolds(paths: seq<string>)
    ensures forall p :: PyStr(p) in AsStrings(paths) <==> p in paths
  {
    if paths != [] {
      AsStringsHolds(paths[1..]);
      assert paths == [paths[0]] + paths[1..];
    }
  }

  function Manifest(paths: seq<string>): PyValue {
    PyDict(map["allowed_paths" := PyList(AsStrings(paths))])
  }

  function ScopeOf(scopes: map<JobId, PyValue>, id: JobId): DependencyScope {
    ClassifyDependencyScope(if id in scopes then scopes[id] else PyNone)
  }

  predicate KnownDisjoint(glob: Glob, scopes: map<JobId, PyValue>, a: JobId, b: JobId) {
    var left := ScopeOf(scopes, a);
    var right := ScopeOf(scopes, b);
    left.known && right.known && !CheckManifestConflict(glob, left.paths, right.paths)
  }

  // ---- what the result means ----------------------------------------------------

  predicate KnownProvenance(p: string) { p == "auto" || p == "semantic" || p == "user" }

  function Rank(p: string): int {
    if p == "auto" then 0 else if p == "semantic" then 1 else 2
  }

  predicate Bad(e: Edge) { e.job == e.dep || !KnownProvenance(e.provenance) }

  predicate JobLess(a: JobId, b: JobId) { a.n < b.n }

  predicate PairLess(a: (JobId, JobId), b: (JobId, JobId)) {
    a.0.n < b.0.n || (a.0 == b.0 && a.1.n < b.1.n)
  }

  predicate EdgeLess(a: Edge, b: Edge) {
    || PairLess((a.job, a.dep), (b.job, b.dep))
    || (a.job == b.job && a.dep == b.dep && StringLess(a.provenance, b.provenance))
  }

  /** The edge whose defect is reported: the least bad one. */
  ghost predicate FirstBad(es: set<Edge>, e: Edge) {
    e in es && Bad(e) && forall f :: f in es && Bad(f) ==> f == e || EdgeLess(e, f)
  }

  ghost function Pairs(es: set<Edge>): set<(JobId, JobId)> {
    set e | e in es :: (e.job, e.dep)
  }

  ghost function Strongest(es: set<Edge>, key: (JobId, JobId)): string {
    if Edge(key.0, key.1, "user") in es then "user"
    else if Edge(key.0, key.1, "semantic") in es then "semantic"
    else "auto"
  }

  /** The ordering that has to be kept: everything but the generated edges between
      manifests known to be disjoint. */
  ghost function Base(glob: Glob, scopes: map<JobId, PyValue>, es: set<Edge>): set<(JobId, JobId)> {
    set k | k in Pairs(es) && !(Strongest(es, k) == "auto" && KnownDisjoint(glob, scopes, k.0, k.1))
  }

  /** The edges that survive: the strongest of each pair of `Base`, protected or
      without an alternative there. */
  ghost predicate Survives(glob: Glob, scopes: map<JobId, PyValue>, es: set<Edge>, e: Edge) {
    var k := (e.job, e.dep);
    var base := Base(glob, scopes, es);
    k in base && e.provenance == Strongest(es, k) &&
    (e.provenance == "auto" ==> !Alternate(base, e.job, e.dep))
  }

  ghost predicate IsMinimized(glob: Glob, scopes: map<JobId, PyValue>, es: set<Edge>, r: Outcome) {
    match r
    case Minimal(out) =>
      && (forall e :: e in es ==> !Bad(e))
      && Acyclic(Pairs(es))
      && StrictlySorted(EdgeLess, out)
      && forall e :: e in out <==> Survives(glob, scopes, es, e)
    case DependencyCycle =>
      || (exists e :: FirstBad(es, e) && e.job == e.dep)
      || ((forall e :: e in es ==> !Bad(e)) && !Acyclic(Pairs(es)))
    case UnknownProvenance(p) =>
      exists e :: FirstBad(es, e) && e.job != e.dep && e.provenance == p
  }

  // ---- the phases of the algorithm -------------------------------------------------

  lemma EdgeLessIsStrictOrder()
    ensures StrictOrder(EdgeLess)
  {
    StringLessIsStrictOrder();
  }

  lemma PairLessIsStrictOrder()
    ensures StrictOrder(PairLess)
  {
  }

  ghost function SetOf<T>(s: seq<T>): set<T> {
    set x | x in s
  }

  lemma SetOfPush<T>(s: seq<T>, i: nat)
    requires i < |s|
    ensures SetOf(s[..i + 1]) == SetOf(s[..i]) + {s[i]}
  {
    assert s[..i + 1] == s[..i] + [s[i]];
  }

  lemma DistinctSize<T>(s: seq<T>)
    requires forall i, j :: 0 <= i < j < |s| ==> s[i] != s[j]
    ensures |SetOf(s)| == |s|
  {
    if s != [] {
      var n := |s| - 1;
      DistinctSize(s[..n]);
      assert s == s[..n] + [s[n]];
      assert SetOf(s) == SetOf(s[..n]) + {s[n]};
    }
  }

  lemma SubsetOfSameSize<T>(a: set<T>, b: set<T>)
    requires a <= b && |a| == |b|
    ensures a == b
  {
    assert |b - a| == |b| - |a|;
  }

  /** `strongest` holds one provenance per pair of `es`, the highest ranked. */
  ghost predicate Merged(es: set<Edge>, strongest: map<(JobId, JobId), string>) {
    strongest.Keys == Pairs(es) && forall k :: k in strongest ==> strongest[k] == Strongest(es, k)
  }

  function MergeOne(strongest: map<(JobId, JobId), string>, e: Edge): map<(JobId, JobId), string> {
    var key := (e.job, e.dep);
    if key !in strongest || Rank(e.provenance) > Rank(strongest[key]) then strongest[key := e.provenance] else strongest
  }

  lemma ProvenanceStep(before: set<Edge>, e: Edge)
    requires KnownProvenance(e.provenance)
    ensures var key := (e.job, e.dep);
            Strongest(before + {e}, key) ==
            if key !in Pairs(before) || Rank(e.provenance) > Rank(Strongest(before, key))
            then e.provenance else Strongest(before, key)
    ensures forall k :: k != (e.job, e.dep) ==> Strongest(before + {e}, k) == Strongest(before, k)
  {
    var key := (e.job, e.dep);
    if key !in Pairs(before) {
      assert forall p :: Edge(key.0, key.1, p) in before ==> key in Pairs(before);
    }
  }

  lemma MergeStep(es: set<Edge>, strongest: map<(JobId, JobId), string>, e: Edge)
    requires Merged(es, strongest) && KnownProvenance(e.provenance)
    ensures Merged(es + {e}, MergeOne(strongest, e))
  {
    ProvenanceStep(es, e);
    var key := (e.job, e.dep);
    assert Pairs(es + {e}) == Pairs(es) + {key} by {
      forall k ensures k in Pairs(es + {e}) <==> k in Pairs(es) + {key} {
        if k in Pairs(es) {
          var f :| f in es && k == (f.job, f.dep);
          assert f in es + {e};
        }
      }
    }
  }

  lemma SubsetOrMissing<T>(a: set<T>, b: set<T>)
    requires a <= b && |a| != |b|
    ensures b - a != {}
  {
    assert |b - a| == |b| - |a|;
  }

  /** One provenance per pair, the highest ranked; or the first defect. */
  method MergeByRank(normalized: seq<Edge>) returns (strongest: map<(JobId, JobId), string>, defect: Option<Outcome>)
    requires StrictlySorted(EdgeLess, normalized)
    ensures defect.None? ==> Merged(SetOf(normalized), strongest) && forall e :: e in normalized ==> !Bad(e)
    ensures defect.Some? ==> !defect.value.Minimal?
    ensures defect.Some? && defect.value.DependencyCycle? ==>
              exists e :: FirstBad(SetOf(normalized), e) && e.job == e.dep
    ensures defect.Some? && defect.value.UnknownProvenance? ==>
              exists e :: FirstBad(SetOf(normalized), e) && e.job != e.dep && e.provenance == defect.value.provenance
  {
    strongest := map[];
    defect := None;
    for i := 0 to |normalized|
      invariant forall j :: 0 <= j < i ==> !Bad(normalized[j])
      invariant Merged(SetOf(normalized[..i]), strongest)
    {
      var e := normalized[i];
      if e.job == e.dep {
        assert FirstBad(SetOf(normalized), e);
        return strongest, Some(DependencyCycle);
      }
      if !KnownProvenance(e.provenance) {
        assert FirstBad(SetOf(normalized), e);
        return strongest, Some(UnknownProvenance(e.provenance));
      }
      SetOfPush(normalized, i);
      MergeStep(SetOf(normalized[..i]), strongest, e);
      strongest := MergeOne(strongest, e);
    }
    assert normalized[..|normalized|] == normalized;
  }

  function Deps(adjacency: map<JobId, set<JobId>>, n: JobId): set<JobId> {
    if n in adjacency then adjacency[n] else {}
  }

  ghost predicate IsAdjacency(adjacency: map<JobId, set<JobId>>, g: set<(JobId, JobId)>) {
    forall u, v :: v in Deps(adjacency, u) <==> (u, v) in g
  }

  method AdjacencyOf(g: set<(JobId, JobId)>) returns (adjacency: map<JobId, set<JobId>>)
    ensures IsAdjacency(adjacency, g)
  {
    adjacency := map[];
    var rest := g;
    while rest != {}
      invariant rest <= g
      invariant forall u, v :: v in Deps(adjacency, u) <==> (u, v) in g && (u, v) !in rest
      decreases rest
    {
      var k :| k in rest;
      adjacency := adjacency[k.0 := Deps(adjacency, k.0) + {k.1}];
      rest := rest - {k};
    }
  }

  function Endpoints(g: set<(JobId, JobId)>): set<JobId> {
    (set k | k in g :: k.0) + (set k | k in g :: k.1)
  }

  ghost predicate Within(g: set<(JobId, JobId)>, nodes: set<JobId>) {
    forall u, v :: (u, v) in g ==> u in nodes && v in nodes
  }

  lemma EndpointsCover(g: set<(JobId, JobId)>)
    ensures Within(g, Endpoints(g))
  {
  }

  /** The jobs waiting on each node. */
  method DependentsOf(nodes: set<JobId>, g: set<(JobId, JobId)>) returns (dependents: map<JobId, set<JobId>>)
    requires Within(g, nodes)
    ensures dependents.Keys == nodes
    ensures forall d, j :: d in dependents ==> (j in dependents[d] <==> (j, d) in g)
  {
    dependents := map n | n in nodes :: {};
    var rest := g;
    while rest != {}
      invariant rest <= g
      invariant dependents.Keys == nodes
      invariant forall d, j :: d in dependents ==> (j in dependents[d] <==> (j, d) in g && (j, d) !in rest)
      decreases rest
    {
      var k :| k in rest;
      assert (k.0, k.1) in g;
      dependents := dependents[k.1 := dependents[k.1] + {k.0}];
      rest := rest - {k};
    }
  }

  /** `topo` lists distinct nodes, each after everything it depends on. */
  ghost predicate DepsFirst(g: set<(JobId, JobId)>, topo: seq<JobId>) {
    && (forall i, j :: 0 <= i < j < |topo| ==> topo[i] != topo[j])
    && forall i, v :: 0 <= i < |topo| && (topo[i], v) in g ==> v in topo[..i]
  }

  method PopLeast(ready: set<JobId>) returns (node: JobId)
    requires ready != {}
    ensures node in ready && forall m :: m in ready ==> node.n <= m.n
  {
    node := Pick(ready);
    var rest := ready - {node};
    while rest != {}
      invariant rest <= ready && node in ready
      invariant forall m :: m in ready && m !in rest ==> node.n <= m.n
      decreases rest
    {
      var m := Pick(rest);
      if m.n < node.n { node := m; }
      rest := rest - {m};
    }
  }

  /** For every node, how many of its dependencies are not yet in `topo`. */
  ghost function Waiting(nodes: set<JobId>, adjacency: map<JobId, set<JobId>>, topo: seq<JobId>): map<JobId, nat> {
    map n | n in nodes :: |Deps(adjacency, n) - SetOf(topo)|
  }

  ghost predicate Counts(waiting: map<JobId, nat>, remaining: map<JobId, int>, pending: set<JobId>) {
    && remaining.Keys == waiting.Keys
    && forall n :: n in remaining ==> remaining[n] == waiting[n] + (if n in pending then 1 else 0)
  }

  ghost predicate ReadySet(placed: set<JobId>, remaining: map<JobId, int>, ready: set<JobId>) {
    forall n :: n in ready <==> n in remaining && n !in placed && remaining[n] == 0
  }

  /** Once a node is placed, each job waiting on it waits on one job less. */
  method Release(waiters: set<JobId>, remaining0: map<JobId, int>, ready0: set<JobId>,
                 ghost waiting: map<JobId, nat>, ghost placed: set<JobId>)
    returns (remaining: map<JobId, int>, ready: set<JobId>)
    requires waiters <= remaining0.Keys && waiters !! placed
    requires Counts(waiting, remaining0, waiters) && ReadySet(placed, remaining0, ready0)
    ensures Counts(waiting, remaining, {}) && ReadySet(placed, remaining, ready)
  {
    remaining, ready := remaining0, ready0;
    var pending := waiters;
    while pending != {}
      invariant pending <= waiters
      invariant Counts(waiting, remaining, pending)
      invariant ReadySet(placed, remaining, ready)
      decreases pending
    {
      var n := Pick(pending);
      pending := pending - {n};
      remaining := remaining[n := remaining[n] - 1];
      if remaining[n] == 0 {
        ready := ready + {n};
      }
    }
  }

  lemma WaitingShrinks(nodes: set<JobId>, adjacency: map<JobId, set<JobId>>, topo: seq<JobId>, node: JobId, n: JobId)
    requires node !in topo && n in nodes
    ensures Waiting(nodes, adjacency, topo)[n] ==
            Waiting(nodes, adjacency, topo + [node])[n] + (if node in Deps(adjacency, n) then 1 else 0)
  {
    var d := Deps(adjacency, n);
    assert SetOf(topo + [node]) == SetOf(topo) + {node};
    assert d - SetOf(topo + [node]) == (d - SetOf(topo)) - {node};
  }

  /** Placing a node leaves the counts of its waiters one too high. */
  lemma PlaceCounts(nodes: set<JobId>, adjacency: map<JobId, set<JobId>>, g: set<(JobId, JobId)>, topo: seq<JobId>,
                    node: JobId,
                    remaining: map<JobId, int>, waiters: set<JobId>)
    requires IsAdjacency(adjacency, g) && node !in topo
    requires forall n :: n in waiters <==> (n, node) in g
    requires Counts(Waiting(nodes, adjacency, topo), remaining, {})
    ensures Counts(Waiting(nodes, adjacency, topo + [node]), remaining, waiters)
  {
    forall n | n in nodes
      ensures remaining[n] == Waiting(nodes, adjacency, topo + [node])[n] + (if n in waiters then 1 else 0)
    {
      WaitingShrinks(nodes, adjacency, topo, node, n);
      assert (n, node) in g <==> node in Deps(adjacency, n);
    }
  }

  lemma NothingWaiting(nodes: set<JobId>, adjacency: map<JobId, set<JobId>>, g: set<(JobId, JobId)>, topo: seq<JobId>,
                       n: JobId)
    requires IsAdjacency(adjacency, g) && n in nodes && Waiting(nodes, adjacency, topo)[n] == 0
    ensures forall v :: (n, v) in g ==> v in topo
  {
    var missing := Deps(adjacency, n) - SetOf(topo);
    assert missing == {};
    forall v | (n, v) in g ensures v in topo {
      assert v in Deps(adjacency, n) && v !in missing;
    }
  }

  /** The jobs waiting on a node about to be placed are themselves unplaced. */
  lemma WaitersUnplaced(g: set<(JobId, JobId)>, topo: seq<JobId>, node: JobId, n: JobId)
    requires DepsFirst(g, topo) && node !in topo && (n, node) in g
    ensures n !in topo
  {
  }

  lemma MissingDep(nodes: set<JobId>, adjacency: map<JobId, set<JobId>>, g: set<(JobId, JobId)>, topo: seq<JobId>,
                   remaining: map<JobId, int>, u: JobId)
    returns (v: JobId)
    requires IsAdjacency(adjacency, g) && u in nodes - SetOf(topo)
    requires Counts(Waiting(nodes, adjacency, topo), remaining, {}) && ReadySet(SetOf(topo), remaining, {})
    ensures (u, v) in g && v !in topo
  {
    assert u !in {} && u in remaining;
    var missing := Deps(adjacency, u) - SetOf(topo);
    assert missing != {};
    v :| v in missing;
  }

  /** When nothing is ready, the nodes left over hold a cycle. */
  lemma LeftoverCycle(nodes: set<JobId>, adjacency: map<JobId, set<JobId>>, g: set<(JobId, JobId)>, topo: seq<JobId>,
                      remaining: map<JobId, int>)
    requires IsAdjacency(adjacency, g) && Within(g, nodes)
    requires Counts(Waiting(nodes, adjacency, topo), remaining, {}) && ReadySet(SetOf(topo), remaining, {})
    requires nodes - SetOf(topo) != {}
    ensures !Acyclic(g)
  {
    var left := nodes - SetOf(topo);
    forall u | u in left ensures exists v :: v in left && (u, v) in g {
      var v := MissingDep(nodes, adjacency, g, topo, remaining, u);
      assert (u, v) in g && v in left;
    }
    NoSinkMeansCycle(g, left);
  }

  /** A placement order that is complete exactly when it has as many nodes as there are. */
  lemma Complete(nodes: set<JobId>, topo: seq<JobId>, g: set<(JobId, JobId)>)
    requires DepsFirst(g, topo) && SetOf(topo) <= nodes && Within(g, nodes)
    ensures |topo| == |nodes| ==> SetOf(topo) == nodes && Acyclic(g)
    ensures |topo| != |nodes| ==> nodes - SetOf(topo) != {}
  {
    DistinctSize(topo);
    if |topo| == |nodes| {
      SubsetOfSameSize(SetOf(topo), nodes);
      OrderedIsAcyclic(g, topo);
    } else {
      SubsetOrMissing(SetOf(topo), nodes);
    }
  }

  /** One more node, all of whose dependencies are placed. */
  lemma Place(nodes: set<JobId>, g: set<(JobId, JobId)>, topo: seq<JobId>, node: JobId, waiters: set<JobId>)
    requires Within(g, nodes) && DepsFirst(g, topo) && SetOf(topo) <= nodes && node in nodes && node !in topo
    requires forall v :: (node, v) in g ==> v in topo
    requires forall n :: n in waiters <==> (n, node) in g
    ensures DepsFirst(g, topo + [node])
    ensures SetOf(topo + [node]) == SetOf(topo) + {node} && SetOf(topo + [node]) <= nodes
    ensures waiters <= nodes && waiters !! SetOf(topo + [node])
  {
    DepsFirstPush(g, topo, node);
    forall n | n in waiters ensures n in nodes && n !in topo + [node] {
      assert (n, node) in g;
      WaitersUnplaced(g, topo, node, n);
      assert (node, node) !in g;
    }
  }

  lemma InitialCounts(nodes: set<JobId>, adjacency: map<JobId, set<JobId>>)
    ensures Waiting(nodes, adjacency, []) == map n | n in nodes :: |Deps(adjacency, n)|
  {
    forall n | n in nodes ensures Waiting(nodes, adjacency, [])[n] == |Deps(adjacency, n)| {
      assert Deps(adjacency, n) - SetOf([]) == Deps(adjacency, n);
    }
  }

  /** Kahn's algorithm; `ready` holds the elements of the heap. */
  method KahnOrder(nodes: set<JobId>, adjacency: map<JobId, set<JobId>>, g: set<(JobId, JobId)>)
    returns (topo: seq<JobId>)
    requires IsAdjacency(adjacency, g) && Within(g, nodes)
    ensures DepsFirst(g, topo)
    ensures |topo| == |nodes| <==> Acyclic(g)
    ensures |topo| == |nodes| ==> SetOf(topo) == nodes
  {
    var dependents := DependentsOf(nodes, g);
    var remaining := map n | n in nodes :: |Deps(adjacency, n)|;
    var ready := set n | n in nodes && remaining[n] == 0;
    topo := [];
    InitialCounts(nodes, adjacency);
    while ready != {}
      invariant DepsFirst(g, topo) && SetOf(topo) <= nodes
      invariant Counts(Waiting(nodes, adjacency, topo), remaining, {})
      invariant ReadySet(SetOf(topo), remaining, ready)
      decreases nodes - SetOf(topo)
    {
      topo, remaining, ready := KahnStep(nodes, adjacency, g, dependents, topo, remaining, ready);
    }
    Complete(nodes, topo, g);
    if |topo| != |nodes| {
      LeftoverCycle(nodes, adjacency, g, topo, remaining);
    }
  }

  /** One round of the loop: the least ready node is placed and its waiters released. */
  method KahnStep(nodes: set<JobId>, adjacency: map<JobId, set<JobId>>, ghost g: set<(JobId, JobId)>,
                  dependents: map<JobId, set<JobId>>, topo0: seq<JobId>, remaining0: map<JobId, int>,
                  ready0: set<JobId>)
    returns (topo: seq<JobId>, remaining: map<JobId, int>, ready: set<JobId>)
    requires IsAdjacency(adjacency, g) && Within(g, nodes)
    requires dependents.Keys == nodes && forall d, j :: d in dependents ==> (j in dependents[d] <==> (j, d) in g)
    requires DepsFirst(g, topo0) && SetOf(topo0) <= nodes
    requires Counts(Waiting(nodes, adjacency, topo0), remaining0, {})
    requires ReadySet(SetOf(topo0), remaining0, ready0) && ready0 != {}
    ensures DepsFirst(g, topo) && SetOf(topo0) < SetOf(topo) <= nodes
    ensures Counts(Waiting(nodes, adjacency, topo), remaining, {})
    ensures ReadySet(SetOf(topo), remaining, ready)
  {
    var node := PopLeast(ready0);
    ghost var waiters := dependents[node];
    assert forall n :: n in waiters <==> (n, node) in g;
    NothingWaiting(nodes, adjacency, g, topo0, node);
    PlaceCounts(nodes, adjacency, g, topo0, node, remaining0, waiters);
    Place(nodes, g, topo0, node, waiters);
    topo := topo0 + [node];
    remaining, ready := Release(dependents[node], remaining0, ready0 - {node}, Waiting(nodes, adjacency, topo),
                                SetOf(topo));
  }

  lemma DepsFirstPush(g: set<(JobId, JobId)>, topo: seq<JobId>, node: JobId)
    requires DepsFirst(g, topo) && node !in topo
    requires forall v :: (node, v) in g ==> v in topo
    ensures DepsFirst(g, topo + [node])
  {
    var t := topo + [node];
    forall i, v | 0 <= i < |t| && (t[i], v) in g ensures v in t[..i] {
      if i < |topo| { assert t[..i] == topo[..i]; } else { assert t[..i] == topo; }
    }
  }

  ghost function PositionIn(topo: seq<JobId>, n: JobId): nat
    requires n in topo
    ensures PositionIn(topo, n) < |topo| && topo[PositionIn(topo, n)] == n
  {
    var i :| 0 <= i < |topo| && topo[i] == n;
    i
  }

  ghost function PositionRank(topo: seq<JobId>): map<JobId, int> {
    map n | n in SetOf(topo) :: PositionIn(topo, n)
  }

  lemma PositionsRank(g: set<(JobId, JobId)>, topo: seq<JobId>)
    requires DepsFirst(g, topo) && Within(g, SetOf(topo))
    ensures Ranks(g, PositionRank(topo))
  {
    forall e | e in g
      ensures e.0 in topo && e.1 in topo && PositionIn(topo, e.1) < PositionIn(topo, e.0)
    {
      assert (e.0, e.1) in g;
      var i := PositionIn(topo, e.0);
      assert (topo[i], e.1) in g;
      var k :| 0 <= k < i && topo[k] == e.1;
      assert PositionIn(topo, e.1) == k;
    }
  }

  lemma OrderedIsAcyclic(g: set<(JobId, JobId)>, topo: seq<JobId>)
    requires DepsFirst(g, topo) && Within(g, SetOf(topo))
    ensures Acyclic(g)
  {
    PositionsRank(g, topo);
    RankedIsAcyclic(g, PositionRank(topo));
  }

  ghost predicate IsMask(g: set<(JobId, JobId)>, nodes: seq<JobId>, from: JobId, mask: nat) {
    forall i :: 0 <= i < |nodes| ==> (TestBit(mask, i) <==> Reaches(g, from, nodes[i]))
  }

  lemma ReachesThroughDeps(g: set<(JobId, JobId)>, u: JobId, v: JobId)
    ensures Reaches(g, u, v) <==> exists d :: (u, d) in g && (d == v || Reaches(g, d, v))
  {
    if Reaches(g, u, v) { var d := FirstEdge(g, u, v); }
    forall d | (u, d) in g && (d == v || Reaches(g, d, v)) ensures Reaches(g, u, v) {
      EdgeReaches(g, u, d);
      if d != v { ReachesTransitive(g, u, d, v); }
    }
  }

  /** One bit per node. */
  method NodeBits(nodes: seq<JobId>) returns (bit: map<JobId, nat>)
    requires forall i, j :: 0 <= i < j < |nodes| ==> nodes[i] != nodes[j]
    ensures Numbered(nodes, bit)
  {
    bit := map[];
    for i := 0 to |nodes|
      invariant bit.Keys == SetOf(nodes[..i])
      invariant forall j :: 0 <= j < i ==> nodes[j] in bit && bit[nodes[j]] == Pow2(j)
    {
      SetOfPush(nodes, i);
      bit := bit[nodes[i] := Pow2(i)];
    }
    assert nodes[..|nodes|] == nodes;
  }

  /** `bit` gives each of the distinct nodes its own bit. */
  ghost predicate Numbered(nodes: seq<JobId>, bit: map<JobId, nat>) {
    && (forall i, j :: 0 <= i < j < |nodes| ==> nodes[i] != nodes[j])
    && bit.Keys == SetOf(nodes)
    && forall i :: 0 <= i < |nodes| ==> nodes[i] in bit && bit[nodes[i]] == Pow2(i)
  }

  ghost predicate Masked(g: set<(JobId, JobId)>, nodes: seq<JobId>, done: set<JobId>, reachable: map<JobId, nat>) {
    reachable.Keys == done && forall n :: n in done ==> IsMask(g, nodes, n, reachable[n])
  }

  /** `mask |= bit[d] | reachable[d]` over the dependencies of one node. */
  method MaskOf(node: JobId, deps: set<JobId>, nodes: seq<JobId>, bit: map<JobId, nat>, reachable: map<JobId, nat>,
                ghost g: set<(JobId, JobId)>, ghost done: set<JobId>) returns (mask: nat)
    requires Numbered(nodes, bit) && Masked(g, nodes, done, reachable)
    requires deps <= done && done <= SetOf(nodes)
    requires forall d :: d in deps <==> (node, d) in g
    ensures IsMask(g, nodes, node, mask)
  {
    mask := 0;
    var rest := deps;
    forall i | 0 <= i < |nodes| ensures !TestBit(0, i) { NoBits(i); }
    while rest != {}
      invariant rest <= deps
      invariant forall i :: 0 <= i < |nodes| ==>
                  (TestBit(mask, i) <==>
                   exists d :: d in deps && d !in rest && (d == nodes[i] || Reaches(g, d, nodes[i])))
      decreases rest
    {
      var d := Pick(rest);
      ghost var prior := mask;
      mask := BitOr(mask, BitOr(bit[d], reachable[d]));
      forall i | 0 <= i < |nodes|
        ensures TestBit(mask, i) <==> TestBit(prior, i) || d == nodes[i] || Reaches(g, d, nodes[i])
      {
        OrOfBitAndMask(g, nodes, bit, d, reachable[d], i);
        BitOrTests(prior, BitOr(bit[d], reachable[d]), i);
      }
      rest := rest - {d};
    }
    forall i | 0 <= i < |nodes| ensures TestBit(mask, i) <==> Reaches(g, node, nodes[i]) {
      ReachesThroughDeps(g, node, nodes[i]);
    }
  }

  /** Reachability of every node as a bitmask, in one pass along `topo`. */
  method ReachMasks(topo: seq<JobId>, nodes: seq<JobId>, bit: map<JobId, nat>, adjacency: map<JobId, set<JobId>>,
                    ghost g: set<(JobId, JobId)>)
    returns (reachable: map<JobId, nat>)
    requires IsAdjacency(adjacency, g) && DepsFirst(g, topo)
    requires Numbered(nodes, bit) && SetOf(topo) == SetOf(nodes)
    ensures Masked(g, nodes, SetOf(nodes), reachable)
  {
    reachable := map[];
    for k := 0 to |topo|
      invariant Masked(g, nodes, SetOf(topo[..k]), reachable)
    {
      var node := topo[k];
      var deps := Deps(adjacency, node);
      forall d | d in deps ensures d in SetOf(topo[..k]) {
        assert (topo[k], d) in g;
      }
      var mask := MaskOf(node, deps, nodes, bit, reachable, g, SetOf(topo[..k]));
      SetOfPush(topo, k);
      reachable := reachable[node := mask];
    }
    assert topo[..|topo|] == topo;
  }

  /** `bit[d] | reachable[d]`: d itself and everything it reaches. */
  lemma OrOfBitAndMask(g: set<(JobId, JobId)>, nodes: seq<JobId>, bit: map<JobId, nat>, d: JobId, mask: nat, i: nat)
    requires Numbered(nodes, bit) && d in bit && i < |nodes| && IsMask(g, nodes, d, mask)
    ensures TestBit(BitOr(bit[d], mask), i) <==> d == nodes[i] || Reaches(g, d, nodes[i])
  {
    var j :| 0 <= j < |nodes| && nodes[j] == d;
    BitOrTests(bit[d], mask, i);
    Pow2Tests(j, i);
  }

  /** Generated edges between manifests known to be disjoint are dropped. */
  method DropDisjoint(glob: Glob, scopes: map<JobId, PyValue>, strongest: map<(JobId, JobId), string>)
    returns (kept: map<(JobId, JobId), string>)
    ensures kept.Keys == set k | k in strongest && !(strongest[k] == "auto" && KnownDisjoint(glob, scopes, k.0, k.1))
    ensures forall k :: k in kept ==> kept[k] == strongest[k]
  {
    kept := strongest;
    var rest := strongest.Keys;
    while rest != {}
      invariant rest <= strongest.Keys
      invariant forall k :: k in kept <==>
                  k in strongest && (k in rest || !(strongest[k] == "auto" && KnownDisjoint(glob, scopes, k.0, k.1)))
      invariant forall k :: k in kept ==> kept[k] == strongest[k]
      decreases rest
    {
      var k :| k in rest;
      rest := rest - {k};
      if strongest[k] == "auto" && KnownDisjoint(glob, scopes, k.0, k.1) {
        kept := kept - {k};
      }
    }
  }

  /** `any(other != key[1] and ...)`: the mask test for an alternative. */
  method HasAlternate(key: (JobId, JobId), adjacency: map<JobId, set<JobId>>, nodes: seq<JobId>, bit: map<JobId, nat>,
                      reachable: map<JobId, nat>, ghost g: set<(JobId, JobId)>) returns (alternate: bool)
    requires IsAdjacency(adjacency, g) && Within(g, SetOf(nodes)) && key in g
    requires Numbered(nodes, bit) && Masked(g, nodes, SetOf(nodes), reachable)
    ensures alternate <==> Alternate(g, key.0, key.1)
  {
    assert (key.0, key.1) in g;
    ghost var at :| 0 <= at < |nodes| && nodes[at] == key.1;
    var rest := Deps(adjacency, key.0);
    alternate := false;
    while rest != {}
      invariant rest <= Deps(adjacency, key.0)
      invariant alternate <==> exists w :: (key.0, w) in g && w !in rest && w != key.1 && Reaches(g, w, key.1)
      decreases rest
    {
      var other := Pick(rest);
      assert (key.0, other) in g;
      MaskTestsBit(BitOr(bit[other], reachable[other]), at);
      OrOfBitAndMask(g, nodes, bit, other, reachable[other], at);
      if other != key.1 && BitAnd(BitOr(bit[other], reachable[other]), bit[key.1]) != 0 {
        alternate := true;
      }
      rest := rest - {other};
    }
    if Alternate(g, key.0, key.1) {
      var w := AlternateWitness(g, key.0, key.1);
      assert w !in rest;
    }
  }

  /** `kept0` without the generated edges among `seen` that have an alternative in `g`. */
  ghost predicate Pruned(g: set<(JobId, JobId)>, kept0: map<(JobId, JobId), string>, seen: set<(JobId, JobId)>,
                         kept: map<(JobId, JobId), string>)
  {
    && (forall k :: k in kept <==> k in kept0 && !(k in seen && kept0[k] == "auto" && Alternate(g, k.0, k.1)))
    && forall k :: k in kept ==> kept[k] == kept0[k]
  }

  method SortedPairs(s: set<(JobId, JobId)>) returns (order: seq<(JobId, JobId)>)
    ensures SetOf(order) == s
  {
    PairLessIsStrictOrder();
    order := SortedOf(s, PairLess);
  }

  lemma PruneStep(g: set<(JobId, JobId)>, kept0: map<(JobId, JobId), string>, seen: set<(JobId, JobId)>,
                  kept: map<(JobId, JobId), string>, key: (JobId, JobId))
    requires Pruned(g, kept0, seen, kept) && key in kept0
    ensures Pruned(g, kept0, seen + {key},
                   if kept0[key] == "auto" && Alternate(g, key.0, key.1) then kept - {key} else kept)
  {
  }

  /** Every generated edge with an alternative in `g` goes; the masks are those of `g`
      throughout, although edges disappear meanwhile. */
  method DropRedundant(kept0: map<(JobId, JobId), string>, adjacency: map<JobId, set<JobId>>, nodes: seq<JobId>,
                       bit: map<JobId, nat>, reachable: map<JobId, nat>, ghost g: set<(JobId, JobId)>)
    returns (kept: map<(JobId, JobId), string>)
    requires IsAdjacency(adjacency, g) && Within(g, SetOf(nodes)) && kept0.Keys == g
    requires Numbered(nodes, bit) && Masked(g, nodes, SetOf(nodes), reachable)
    ensures Pruned(g, kept0, g, kept)
  {
    var order := SortedPairs(kept0.Keys);
    kept := kept0;
    ghost var seen := {};
    for i := 0 to |order|
      invariant seen == SetOf(order[..i])
      invariant Pruned(g, kept0, seen, kept)
    {
      var key := order[i];
      assert key in SetOf(order);
      SetOfPush(order, i);
      var drop := false;
      if kept0[key] == "auto" {
        drop := HasAlternate(key, adjacency, nodes, bit, reachable, g);
      }
      PruneStep(g, kept0, seen, kept, key);
      if drop {
        kept := kept - {key};
      }
      seen := seen + {key};
    }
    assert order[..|order|] == order;
  }

  /** The final listing, sorted by pair. */
  method EdgeList(kept: map<(JobId, JobId), string>) returns (out: seq<Edge>)
    ensures StrictlySorted(EdgeLess, out)
    ensures forall e :: e in out <==> (e.job, e.dep) in kept && kept[(e.job, e.dep)] == e.provenance
  {
    PairLessIsStrictOrder();
    var order := SortedOf(kept.Keys, PairLess);
    out := [];
    for i := 0 to |order|
      invariant |out| == i
      invariant forall j :: 0 <= j < i ==>
                  order[j] in kept && out[j] == Edge(order[j].0, order[j].1, kept[order[j]])
    {
      assert order[i] in order && order[i] in kept;
      out := out + [Edge(order[i].0, order[i].1, kept[order[i]])];
    }
    forall e ensures e in out <==> (e.job, e.dep) in kept && kept[(e.job, e.dep)] == e.provenance {
      if (e.job, e.dep) in kept && kept[(e.job, e.dep)] == e.provenance {
        assert (e.job, e.dep) in order;
        var j :| 0 <= j < |order| && order[j] == (e.job, e.dep);
        assert out[j] == e;
      }
    }
  }

  /** What the two pruning passes leave is what should survive. */
  lemma PrunedSurvives(glob: Glob, scopes: map<JobId, PyValue>, es: set<Edge>, strongest: map<(JobId, JobId), string>,
                       disjointDropped: map<(JobId, JobId), string>, kept: map<(JobId, JobId), string>, out: seq<Edge>)
    requires Merged(es, strongest)
    requires disjointDropped.Keys == set k | k in strongest &&
             !(strongest[k] == "auto" && KnownDisjoint(glob, scopes, k.0, k.1))
    requires forall k :: k in disjointDropped ==> disjointDropped[k] == strongest[k]
    requires Pruned(Base(glob, scopes, es), disjointDropped, Base(glob, scopes, es), kept)
    requires forall e :: e in out <==> (e.job, e.dep) in kept && kept[(e.job, e.dep)] == e.provenance
    ensures forall e :: e in out <==> Survives(glob, scopes, es, e)
  {
    BaseKeys(glob, scopes, es, strongest, disjointDropped);
    var base := Base(glob, scopes, es);
    forall e ensures e in out <==> Survives(glob, scopes, es, e) {
      var k := (e.job, e.dep);
      assert k in kept <==> k in base && !(strongest[k] == "auto" && Alternate(base, k.0, k.1));
    }
  }

  lemma BaseKeys(glob: Glob, scopes: map<JobId, PyValue>, es: set<Edge>, strongest: map<(JobId, JobId), string>,
                 kept: map<(JobId, JobId), string>)
    requires Merged(es, strongest)
    requires kept.Keys == set k | k in strongest && !(strongest[k] == "auto" && KnownDisjoint(glob, scopes, k.0, k.1))
    ensures kept.Keys == Base(glob, scopes, es)
  {
  }

  method MinimizeAutoDependencies(glob: Glob, scopes: map<JobId, PyValue>, edges: seq<Edge>) returns (r: Outcome)
    ensures IsMinimized(glob, scopes, SetOf(edges), r)
  {
    EdgeLessIsStrictOrder();
    SortUniqueSorts(EdgeLess, edges);
    var normalized := SortUnique(EdgeLess, edges);
    ghost var es := SetOf(edges);
    assert SetOf(normalized) == es;
    var strongest, defect := MergeByRank(normalized);
    if defect.Some? {
      return defect.value;
    }
    assert forall e :: e in es ==> e in normalized && !Bad(e);
    r := MinimizeMerged(glob, scopes, strongest, es);
  }

  /** The rest of `minimize_auto_dependencies`, once provenances are merged. */
  method MinimizeMerged(glob: Glob, scopes: map<JobId, PyValue>, strongest: map<(JobId, JobId), string>,
                        ghost es: set<Edge>)
    returns (r: Outcome)
    requires Merged(es, strongest) && forall e :: e in es ==> !Bad(e)
    ensures IsMinimized(glob, scopes, es, r)
  {
    var adjacency := AdjacencyOf(strongest.Keys);
    var nodeSet := Endpoints(strongest.Keys);
    EndpointsCover(strongest.Keys);
    var topo := KahnOrder(nodeSet, adjacency, strongest.Keys);
    if |topo| != |nodeSet| {
      return DependencyCycle;
    }
    var unpruned := DropDisjoint(glob, scopes, strongest);
    BaseKeys(glob, scopes, es, strongest, unpruned);
    var out := PruneAndList(nodeSet, topo, unpruned, Base(glob, scopes, es), glob, scopes, es, strongest);
    r := Minimal(out);
  }

  method PruneAndList(nodeSet: set<JobId>, topo: seq<JobId>, unpruned: map<(JobId, JobId), string>,
                      ghost base: set<(JobId, JobId)>, ghost glob: Glob, ghost scopes: map<JobId, PyValue>,
                      ghost es: set<Edge>, ghost strongest: map<(JobId, JobId), string>) returns (out: seq<Edge>)
    requires unpruned.Keys == base && DepsFirst(base, topo) && SetOf(topo) == nodeSet && Within(base, nodeSet)
    requires Merged(es, strongest) && base == Base(glob, scopes, es)
    requires unpruned.Keys == set k | k in strongest &&
             !(strongest[k] == "auto" && KnownDisjoint(glob, scopes, k.0, k.1))
    requires forall k :: k in unpruned ==> unpruned[k] == strongest[k]
    ensures StrictlySorted(EdgeLess, out)
    ensures forall e :: e in out <==> Survives(glob, scopes, es, e)
  {
    var reduced := AdjacencyOf(unpruned.Keys);
    var nodes := SortedOf(nodeSet, JobLess);
    assert SetOf(nodes) == nodeSet;
    var bit := NodeBits(nodes);
    var reachable := ReachMasks(topo, nodes, bit, reduced, base);
    var kept := DropRedundant(unpruned, reduced, nodes, bit, reachable, base);
    out := EdgeList(kept);
    PrunedSurvives(glob, scopes, es, strongest, unpruned, kept, out);
  }
}
