/** What `minimize_auto_dependencies` promises, proved of its specification. */
module DependencyTheorems {
  import opened PyValues
  import opened Sorting
  import opened Graphs
  import opened DependencyMinimizer

  ghost function Out(r: Outcome): set<(JobId, JobId)>
    requires r.Minimal?
  {
    Pairs(SetOf(r.edges))
  }

  lemma OutputPairs(glob: Glob, scopes: map<JobId, PyValue>, es: set<Edge>, r: Outcome)
    requires IsMinimized(glob, scopes, es, r) && r.Minimal?
    ensures forall u, v :: (u, v) in Out(r) <==> Survives(glob, scopes, es, Edge(u, v, Strongest(es, (u, v))))
  {
    var out := r.edges;
    forall u, v ensures (u, v) in Out(r) <==> Survives(glob, scopes, es, Edge(u, v, Strongest(es, (u, v)))) {
      if (u, v) in Out(r) {
        var e :| e in SetOf(out) && (u, v) == (e.job, e.dep);
        assert e in out;
      }
      var f := Edge(u, v, Strongest(es, (u, v)));
      if Survives(glob, scopes, es, f) {
        assert f in SetOf(out);
        assert (f.job, f.dep) in Out(r);
      }
    }
  }

  /** The least bad edge, when there is one. */
  lemma FirstBadExists(es: set<Edge>) returns (e: Edge)
    requires exists e :: e in es && Bad(e)
    ensures FirstBad(es, e)
  {
    EdgeLessIsStrictOrder();
    var bad := set e | e in es && Bad(e);
    e :| e in es && Bad(e);
    var rest := bad - {e};
    while rest != {}
      invariant rest <= bad && e in bad && e !in rest
      invariant forall f :: f in bad && f !in rest ==> f == e || EdgeLess(e, f)
      decreases rest
    {
      var f :| f in rest;
      if EdgeLess(f, e) { e := f; }
      rest := rest - {f};
    }
  }

  lemma SelfLoopIsCycle(es: set<Edge>, e: Edge)
    requires e in es && e.job == e.dep
    ensures !Acyclic(Pairs(es))
  {
    assert (e.job, e.dep) in Pairs(es);
    EdgeReaches(Pairs(es), e.job, e.job);
  }

  /** With valid provenances the call raises "dependency cycle" exactly when the input graph
      has a cycle, self-loops included, and otherwise returns a graph; an unknown provenance
      is never let through. */
  lemma CycleVerdict(glob: Glob, scopes: map<JobId, PyValue>, es: set<Edge>, r: Outcome)
    requires IsMinimized(glob, scopes, es, r)
    ensures (forall e :: e in es ==> KnownProvenance(e.provenance)) ==>
              (r.DependencyCycle? <==> !Acyclic(Pairs(es))) && (r.Minimal? <==> Acyclic(Pairs(es)))
    ensures r.Minimal? ==> Acyclic(Pairs(es)) && forall e :: e in es ==> KnownProvenance(e.provenance)
    ensures r.UnknownProvenance? ==> !KnownProvenance(r.provenance)
  {
    if r.DependencyCycle? {
      if e :| FirstBad(es, e) && e.job == e.dep { SelfLoopIsCycle(es, e); }
    }
  }

  /** The result depends only on the set of edges, so neither their order nor duplicates
      in the input matter. */
  lemma ResultIsDetermined(glob: Glob, scopes: map<JobId, PyValue>, xs: seq<Edge>, ys: seq<Edge>, r: Outcome,
                           s: Outcome)
    requires forall e :: e in xs <==> e in ys
    requires IsMinimized(glob, scopes, SetOf(xs), r) && IsMinimized(glob, scopes, SetOf(ys), s)
    ensures r == s
  {
    var es := SetOf(xs);
    assert SetOf(ys) == es;
    EdgeLessIsStrictOrder();
    if r.Minimal? && s.Minimal? {
      SortedIsCanonical(EdgeLess, r.edges, s.edges);
    } else if exists e :: e in es && Bad(e) {
      var e := FirstBadExists(es);
      assert forall f :: FirstBad(es, f) ==> f == e || (EdgeLess(e, f) && EdgeLess(f, e));
      assert forall f :: FirstBad(es, f) ==> f == e;
    }
  }

  /** Removing all redundant edges at once, against masks computed once, changes no
      reachability: the output orders exactly the pairs that are ordered after only the
      known-disjoint generated edges are dropped. */
  lemma ReachabilityPreserved(glob: Glob, scopes: map<JobId, PyValue>, es: set<Edge>, r: Outcome)
    requires IsMinimized(glob, scopes, es, r) && r.Minimal?
    ensures SameReachability(Out(r), Base(glob, scopes, es))
    ensures Acyclic(Out(r))
  {
    OutputPairs(glob, scopes, es, r);
    var base := Base(glob, scopes, es);
    var out := Out(r);
    assert out <= base by {
      forall k | k in out ensures k in base { assert (k.0, k.1) in out; }
    }
    var rank := AcyclicHasRanks(Pairs(es));
    assert Ranks(base, rank);
    forall e | e in base && e !in out ensures Alternate(base, e.0, e.1) {
      assert (e.0, e.1) !in out;
    }
    forall u, v ensures Reaches(out, u, v) <==> Reaches(base, u, v) {
      if Reaches(out, u, v) { ReachesMonotone(out, base, u, v); }
      if Reaches(base, u, v) { ReductionKeepsReachability(base, out, rank, u, v); }
    }
    RankedIsAcyclic(out, rank);
  }

  /** Every edge's order is kept, unless the edge is generated and its manifests are known
      to be disjoint; and every protected edge itself survives, with its strongest provenance. */
  lemma OrderingsKept(glob: Glob, scopes: map<JobId, PyValue>, es: set<Edge>, r: Outcome, e: Edge)
    requires IsMinimized(glob, scopes, es, r) && r.Minimal? && e in es
    ensures !KnownDisjoint(glob, scopes, e.job, e.dep) || e.provenance != "auto" ==> Reaches(Out(r), e.job, e.dep)
    ensures e.provenance != "auto" ==>
              exists f :: f in r.edges && f.job == e.job && f.dep == e.dep && Rank(f.provenance) >= Rank(e.provenance)
    ensures forall f :: f in r.edges ==> f in es
  {
    var k := (e.job, e.dep);
    assert k in Pairs(es);
    assert KnownProvenance(e.provenance);
    if !KnownDisjoint(glob, scopes, e.job, e.dep) || e.provenance != "auto" {
      assert k in Base(glob, scopes, es);
      ReachabilityPreserved(glob, scopes, es, r);
      EdgeReaches(Base(glob, scopes, es), e.job, e.dep);
    }
    if e.provenance != "auto" {
      var f := Edge(e.job, e.dep, Strongest(es, k));
      assert Survives(glob, scopes, es, f);
      assert f in r.edges;
    }
    forall f | f in r.edges ensures f in es {
      StrongestIsGiven(glob, scopes, es, f);
    }
  }

  lemma StrongestIsGiven(glob: Glob, scopes: map<JobId, PyValue>, es: set<Edge>, f: Edge)
    requires Survives(glob, scopes, es, f) && forall e :: e in es ==> !Bad(e)
    ensures f in es
  {
    var k := (f.job, f.dep);
    var e :| e in es && k == (e.job, e.dep);
    assert e == Edge(k.0, k.1, e.provenance);
    assert KnownProvenance(e.provenance);
  }

  /** No generated edge of the output is implied by the rest of the output. */
  lemma OutputIsMinimal(glob: Glob, scopes: map<JobId, PyValue>, es: set<Edge>, r: Outcome, e: Edge)
    requires IsMinimized(glob, scopes, es, r) && r.Minimal? && e in r.edges && e.provenance == "auto"
    ensures !Reaches(Out(r) - {(e.job, e.dep)}, e.job, e.dep)
  {
    OutputPairs(glob, scopes, es, r);
    var base := Base(glob, scopes, es);
    var rest := Out(r) - {(e.job, e.dep)};
    assert rest <= base by {
      forall k | k in rest ensures k in base { assert (k.0, k.1) in Out(r); }
    }
    if Reaches(rest, e.job, e.dep) {
      EssentialEdge(base, rest, e.job, e.dep);
    }
  }

  /** Among all subgraphs of the base that keep the protected edges and every ordering,
      the output is the least: it is contained in each of them. */
  lemma OutputIsLeast(glob: Glob, scopes: map<JobId, PyValue>, es: set<Edge>, r: Outcome, h: set<(JobId, JobId)>)
    requires IsMinimized(glob, scopes, es, r) && r.Minimal?
    requires h <= Base(glob, scopes, es) && SameReachability(h, Base(glob, scopes, es))
    requires forall e :: e in es && e.provenance != "auto" ==> (e.job, e.dep) in h
    ensures Out(r) <= h
  {
    OutputPairs(glob, scopes, es, r);
    var base := Base(glob, scopes, es);
    forall k | k in Out(r) ensures k in h {
      assert (k.0, k.1) in Out(r);
      if Strongest(es, k) == "auto" {
        EdgeReaches(base, k.0, k.1);
        EssentialEdge(base, h, k.0, k.1);
      } else {
        assert Edge(k.0, k.1, Strongest(es, k)) in es;
      }
    }
  }

  /** Minimising a minimised graph again, with the same manifests, changes nothing. */
  lemma MinimizingIsIdempotent(glob: Glob, scopes: map<JobId, PyValue>, es: set<Edge>, r: Outcome)
    requires IsMinimized(glob, scopes, es, r) && r.Minimal?
    ensures IsMinimized(glob, scopes, SetOf(r.edges), r)
  {
    var again := SetOf(r.edges);
    ReachabilityPreserved(glob, scopes, es, r);
    OutputPairs(glob, scopes, es, r);
    forall e | e in again ensures e in es && e.provenance == Strongest(again, (e.job, e.dep)) && !Bad(e) {
      StrongestIsGiven(glob, scopes, es, e);
      SameStrongest(glob, scopes, es, r, e);
    }
    var base := Base(glob, scopes, es);
    var base2 := Base(glob, scopes, again);
    forall k ensures k in base2 <==> k in Out(r) {
      if k in Out(r) {
        var e :| e in again && k == (e.job, e.dep);
      }
    }
    assert base2 == Out(r);
    assert base2 <= base by {
      forall k | k in base2 ensures k in base { assert (k.0, k.1) in Out(r); }
    }
    forall e ensures e in r.edges <==> Survives(glob, scopes, again, e) {
      if e in r.edges {
        assert e in again && (e.job, e.dep) in Out(r);
        AlternateMonotone(base2, base, e.job, e.dep);
      }
      if Survives(glob, scopes, again, e) {
        var f :| f in again && (e.job, e.dep) == (f.job, f.dep);
        assert f == e;
      }
    }
  }

  /** Each pair of the output carries one provenance. */
  lemma SameStrongest(glob: Glob, scopes: map<JobId, PyValue>, es: set<Edge>, r: Outcome, e: Edge)
    requires IsMinimized(glob, scopes, es, r) && r.Minimal? && e in r.edges
    ensures Strongest(SetOf(r.edges), (e.job, e.dep)) == e.provenance
  {
    var k := (e.job, e.dep);
    assert e == Edge(k.0, k.1, e.provenance);
    assert forall p :: Edge(k.0, k.1, p) in r.edges ==> p == Strongest(es, k);
  }

  // ---- what a scope says -------------------------------------------------------------------

  /** The dict a scope value stands for: itself, or what it holds under "scope". */
  ghost predicate IsScopeDict(value: PyValue, d: map<string, PyValue>) {
    || (value == PyDict(d) && "scope" !in d)
    || (value.PyDict? && "scope" in value.entries && value.entries["scope"] == PyDict(d))
  }

  /** The manifest names the path. */
  ghost predicate Lists(value: PyValue, path: string) {
    path != "" && exists d: map<string, PyValue> :: IsScopeDict(value, d) && "allowed_paths" in d &&
                              d["allowed_paths"].PyList? && PyStr(path) in d["allowed_paths"].items
  }

  ghost predicate JobLists(scopes: map<JobId, PyValue>, job: JobId, path: string) {
    job in scopes && Lists(scopes[job], path)
  }

  /** A scope is known exactly when it names some path, and its paths are those it names. */
  lemma ScopeIsItsList(value: PyValue)
    ensures forall p :: p in ClassifyDependencyScope(value).paths <==> Lists(value, p)
    ensures ClassifyDependencyScope(value).known <==> exists p :: Lists(value, p)
  {
    var scope := if value.PyDict? && "scope" in value.entries then value.entries["scope"] else value;
    assert scope.PyDict? ==> IsScopeDict(value, scope.entries);
    assert forall d :: IsScopeDict(value, d) ==> scope == PyDict(d);
    var paths := ClassifyDependencyScope(value).paths;
    if paths != [] { assert paths[0] in paths; }
  }

  /** Some path of one manifest is, or matches, some path of the other. */
  ghost predicate ScopesMeet(glob: Glob, scopes: map<JobId, PyValue>, a: JobId, b: JobId) {
    exists p, q :: JobLists(scopes, a, p) && JobLists(scopes, b, q) && (p == q || glob(p, q) || glob(q, p))
  }

  lemma DisjointIffListedApart(glob: Glob, scopes: map<JobId, PyValue>, a: JobId, b: JobId)
    ensures KnownDisjoint(glob, scopes, a, b) <==>
            (exists p :: JobLists(scopes, a, p)) && (exists q :: JobLists(scopes, b, q)) &&
            !ScopesMeet(glob, scopes, a, b)
  {
    hide ClassifyDependencyScope, Lists;
    var left, right := ScopeOf(scopes, a), ScopeOf(scopes, b);
    ScopeIsItsList(if a in scopes then scopes[a] else PyNone);
    ScopeIsItsList(if b in scopes then scopes[b] else PyNone);
    NothingIsListed();
    assert forall p :: p in left.paths <==> JobLists(scopes, a, p);
    assert forall q :: q in right.paths <==> JobLists(scopes, b, q);
    if left.known { var p :| JobLists(scopes, a, p); assert left.paths != []; }
    if right.known { var q :| JobLists(scopes, b, q); assert right.paths != []; }
  }

  lemma NothingIsListed()
    ensures forall p :: !Lists(PyNone, p)
  {
  }

  /** Told from the manifests alone: an edge stays ordered when one of its jobs names no path or the
      manifests meet; a pair with generated edges only is gone when both name paths and these do
      not meet. */
  lemma OrderFollowsTheManifests(glob: Glob, scopes: map<JobId, PyValue>, es: set<Edge>, r: Outcome, e: Edge)
    requires IsMinimized(glob, scopes, es, r) && r.Minimal? && e in es
    ensures (forall p :: !JobLists(scopes, e.job, p)) ==> Reaches(Out(r), e.job, e.dep)
    ensures (forall q :: !JobLists(scopes, e.dep, q)) ==> Reaches(Out(r), e.job, e.dep)
    ensures ScopesMeet(glob, scopes, e.job, e.dep) ==> Reaches(Out(r), e.job, e.dep)
    ensures (exists p :: JobLists(scopes, e.job, p)) && (exists q :: JobLists(scopes, e.dep, q)) &&
            !ScopesMeet(glob, scopes, e.job, e.dep) &&
            (forall f :: f in es && f.job == e.job && f.dep == e.dep ==> f.provenance == "auto") ==>
              (e.job, e.dep) !in Out(r)
  {
    hide KnownDisjoint, JobLists, ScopesMeet, Reaches;
    DisjointIffListedApart(glob, scopes, e.job, e.dep);
    OrderingsKept(glob, scopes, es, r, e);
    OutputPairs(glob, scopes, es, r);
  }

  /** A generated edge to a job without a scope stays; between disjoint manifests it goes. */
  lemma UnscopedStaysDisjointGoes(glob: Glob, scopes: map<JobId, PyValue>, r: Outcome)
    requires IsMinimized(glob, scopes, {Edge(JobId(2), JobId(1), "auto")}, r)
    requires !glob("a.py", "b.py") && !glob("b.py", "a.py")
    ensures scopes == map[JobId(1) := Manifest(["a.py"])] ==> r == Minimal([Edge(JobId(2), JobId(1), "auto")])
    ensures scopes == map[JobId(1) := Manifest(["a.py"]), JobId(2) := Manifest(["b.py"])] ==> r == Minimal([])
  {
    hide KnownDisjoint, ClassifyDependencyScope, Lists, Manifest, IsMinimized, Reaches, Acyclic, StrictlySorted;
    var e := Edge(JobId(2), JobId(1), "auto");
    var es := {e};
    OneEdgeIsAcyclic(es, e);
    CycleVerdict(glob, scopes, es, r);
    OneEdgeOut(glob, scopes, es, e, r);
    OrderFollowsTheManifests(glob, scopes, es, r, e);
    ManifestLists(["a.py"]);
    ManifestLists(["b.py"]);
    if scopes == map[JobId(1) := Manifest(["a.py"]), JobId(2) := Manifest(["b.py"])] {
      assert JobLists(scopes, JobId(1), "a.py") && JobLists(scopes, JobId(2), "b.py");
    }
  }

  lemma ManifestLists(paths: seq<string>)
    requires forall p :: p in paths ==> p != ""
    ensures forall p :: Lists(Manifest(paths), p) <==> p in paths
  {
    hide ClassifyDependencyScope;
    ClassifyManifest(paths);
    ScopeIsItsList(Manifest(paths));
  }

  lemma OneEdgeIsAcyclic(es: set<Edge>, e: Edge)
    requires es == {e} && e.job != e.dep
    ensures Acyclic(Pairs(es))
  {
    RankedIsAcyclic(Pairs(es), map[e.job := 1, e.dep := 0]);
  }

  lemma OneEdgeOut(glob: Glob, scopes: map<JobId, PyValue>, es: set<Edge>, e: Edge, r: Outcome)
    requires IsMinimized(glob, scopes, es, r) && r.Minimal? && es == {e}
    ensures r == Minimal([e]) || r == Minimal([])
    ensures r == Minimal([]) <==> (e.job, e.dep) !in Out(r)
    ensures Reaches(Out(r), e.job, e.dep) ==> (e.job, e.dep) in Out(r)
  {
    OrderingsKept(glob, scopes, es, r, e);
    assert forall f :: f in r.edges ==> f == e;
    EdgeLessIsStrictOrder();
    if r.edges != [] {
      assert r.edges[0] in r.edges;
      assert e in SetOf(r.edges);
      SortedIsCanonical(EdgeLess, r.edges, [e]);
    }
    if Reaches(Out(r), e.job, e.dep) {
      var w := FirstEdge(Out(r), e.job, e.dep);
    }
  }
}
