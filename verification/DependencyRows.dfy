/** The rows of the dependency table after it is pruned, after a split and after a filing
    (hyqs/pipeline/collision.py, hyqs/pipeline/store.py), told row by row from the rows before and
    the manifests. */
module DependencyRows {
  import opened PyValues
  import opened Sorting
  import opened Graphs
  import opened DependencyMinimizer
  import opened DependencyTheorems
  import opened JobDependencies
  import opened SplitRepointing
  import opened RemediationFiling

  // ---- what the minimiser returns ---------------------------------------------------------------

  /** Both manifests name paths, and no two of them meet. */
  ghost predicate AreApart(glob: Glob, scopes: map<JobId, PyValue>, a: JobId, b: JobId) {
    && (exists p :: JobLists(scopes, a, p)) && (exists q :: JobLists(scopes, b, q))
    && !ScopesMeet(glob, scopes, a, b)
  }

  /** Ordered by hand or by meaning, or between manifests that are not apart. */
  ghost predicate MustOrder(glob: Glob, scopes: map<JobId, PyValue>, es: set<Edge>, a: JobId, b: JobId) {
    || Edge(a, b, "user") in es || Edge(a, b, "semantic") in es
    || (Edge(a, b, "auto") in es && !AreApart(glob, scopes, a, b))
  }

  /** More than one such step leads from a to b. */
  ghost predicate IsLongWay(glob: Glob, scopes: map<JobId, PyValue>, es: set<Edge>, p: seq<JobId>, a: JobId, b: JobId) {
    && |p| > 2 && p[0] == a && p[|p| - 1] == b
    && forall i :: 0 <= i < |p| - 1 ==> MustOrder(glob, scopes, es, p[i], p[i + 1])
  }

  ghost predicate HasLongWay(glob: Glob, scopes: map<JobId, PyValue>, es: set<Edge>, a: JobId, b: JobId) {
    exists p :: IsLongWay(glob, scopes, es, p, a, b)
  }

  /** Nothing stronger is given for the pair. */
  ghost predicate IsStrongest(es: set<Edge>, e: Edge) {
    || e.provenance == "user"
    || (e.provenance == "semantic" && Edge(e.job, e.dep, "user") !in es)
    || (e.provenance == "auto" && Edge(e.job, e.dep, "user") !in es && Edge(e.job, e.dep, "semantic") !in es)
  }

  lemma MustOrderIff(glob: Glob, scopes: map<JobId, PyValue>, es: set<Edge>, a: JobId, b: JobId)
    requires forall e :: e in es ==> KnownProvenance(e.provenance)
    ensures (a, b) in Base(glob, scopes, es) <==> MustOrder(glob, scopes, es, a, b)
  {
    hide KnownDisjoint, ScopesMeet, JobLists;
    DisjointIffListedApart(glob, scopes, a, b);
    if (a, b) in Pairs(es) {
      var e :| e in es && (e.job, e.dep) == (a, b);
      assert e == Edge(a, b, e.provenance);
    }
  }

  lemma LongWayIff(glob: Glob, scopes: map<JobId, PyValue>, es: set<Edge>, a: JobId, b: JobId)
    requires forall e :: e in es ==> KnownProvenance(e.provenance)
    requires Acyclic(Base(glob, scopes, es))
    ensures Alternate(Base(glob, scopes, es), a, b) <==> HasLongWay(glob, scopes, es, a, b)
  {
    hide Base, MustOrder;
    var base := Base(glob, scopes, es);
    forall u, v ensures (u, v) in base <==> MustOrder(glob, scopes, es, u, v) { MustOrderIff(glob, scopes, es, u, v); }
    if Alternate(base, a, b) {
      var w :| (a, w) in base && w != b && Reaches(base, w, b);
      var p :| IsPath(base, p, w, b);
      assert IsLongWay(glob, scopes, es, [a] + p, a, b);
    }
    if p :| IsLongWay(glob, scopes, es, p, a, b) {
      assert (p[0], p[1]) in base;
      assert IsPath(base, p[1..], p[1], b);
      assert Reaches(base, p[1], b);
    }
  }

  /** The minimiser returns exactly the given edges that are the strongest of their pair and, if they
      are generated, neither lie between manifests apart nor are implied by a longer way. */
  lemma SurvivorsAre(glob: Glob, scopes: map<JobId, PyValue>, es: set<Edge>, r: Outcome, e: Edge)
    requires IsMinimized(glob, scopes, es, r) && r.Minimal?
    ensures e in r.edges <==>
            && e in es && IsStrongest(es, e)
            && (e.provenance == "auto" ==>
                  !AreApart(glob, scopes, e.job, e.dep) && !HasLongWay(glob, scopes, es, e.job, e.dep))
  {
    hide HasLongWay, AreApart, Alternate, StrictlySorted, KnownDisjoint;
    BaseIsAcyclic(glob, scopes, es);
    MustOrderIff(glob, scopes, es, e.job, e.dep);
    LongWayIff(glob, scopes, es, e.job, e.dep);
  }

  lemma BaseIsAcyclic(glob: Glob, scopes: map<JobId, PyValue>, es: set<Edge>)
    requires Acyclic(Pairs(es))
    ensures Acyclic(Base(glob, scopes, es))
  {
    SubgraphIsAcyclic(Pairs(es), Base(glob, scopes, es));
  }

  /** By job, then by dependency, then by provenance. */
  ghost predicate IsBefore(e: Edge, f: Edge) {
    || e.job.n < f.job.n
    || (e.job == f.job && e.dep.n < f.dep.n)
    || (e.job == f.job && e.dep == f.dep && ComesFirst(e.provenance, f.provenance))
  }

  lemma BeforeIff(e: Edge, f: Edge)
    ensures EdgeLess(e, f) <==> IsBefore(e, f)
  {
    hide StringLess, ComesFirst;
    StringLessIff(e.provenance, f.provenance);
    StringLessIrreflexive(e.provenance);
  }

  ghost predicate IsDefective(e: Edge) { e.job == e.dep || e.provenance !in {"user", "semantic", "auto"} }

  /** What is returned stands in order; and of defective edges the first decides the error, a job that
      waits for itself being a cycle. */
  lemma OrderAndErrors(glob: Glob, scopes: map<JobId, PyValue>, es: set<Edge>, r: Outcome)
    requires IsMinimized(glob, scopes, es, r)
    ensures r.Minimal? ==> forall i, j :: 0 <= i < j < |r.edges| ==> IsBefore(r.edges[i], r.edges[j])
    ensures forall e :: e in es && IsDefective(e) &&
                        (forall f :: f in es && IsDefective(f) ==> f == e || IsBefore(e, f)) ==>
              r == if e.job == e.dep then DependencyCycle else UnknownProvenance(e.provenance)
    ensures (forall e :: e in es ==> !IsDefective(e)) ==> !r.UnknownProvenance?
  {
    hide IsBefore, EdgeLess, Survives, Acyclic, Pairs;
    if r.Minimal? {
      forall i, j | 0 <= i < j < |r.edges|
        ensures IsBefore(r.edges[i], r.edges[j])
      {
        BeforeIff(r.edges[i], r.edges[j]);
      }
    }
    forall e: Edge ensures Bad(e) <==> IsDefective(e) {}
    hide Bad, IsDefective;
    forall e | e in es && IsDefective(e) && (forall f :: f in es && IsDefective(f) ==> f == e || IsBefore(e, f))
      ensures r == if e.job == e.dep then DependencyCycle else UnknownProvenance(e.provenance)
    {
      FirstDecides(glob, scopes, es, r, e);
    }
  }

  lemma FirstDecides(glob: Glob, scopes: map<JobId, PyValue>, es: set<Edge>, r: Outcome, e: Edge)
    requires IsMinimized(glob, scopes, es, r) && e in es && Bad(e)
    requires forall f :: f in es && Bad(f) ==> f == e || IsBefore(e, f)
    ensures r == if e.job == e.dep then DependencyCycle else UnknownProvenance(e.provenance)
  {
    hide IsBefore, EdgeLess, Survives, Acyclic, Pairs, Bad;
    forall f: Edge ensures EdgeLess(e, f) <==> IsBefore(e, f) { BeforeIff(e, f); }
    EdgeLessIsStrictOrder();
    assert FirstBad(es, e);
    assert forall f :: FirstBad(es, f) ==> f == e;
  }

  // ---- the table after pruning -------------------------------------------------------------------

  /** A row of the project that has to be kept as an order. */
  ghost predicate BindsProject(glob: Glob, scopes: map<JobId, PyValue>, project: set<JobId>, rows: Rows, a: JobId,
                               b: JobId) {
    && (a, b) in rows && a in project && b in project
    && (rows[(a, b)] == "auto" ==> !AreApart(glob, scopes, a, b))
  }

  ghost predicate IsImplied(glob: Glob, scopes: map<JobId, PyValue>, project: set<JobId>, rows: Rows, a: JobId,
                            b: JobId)
  {
    exists p: seq<JobId> :: |p| > 2 && p[0] == a && p[|p| - 1] == b &&
      forall i :: 0 <= i < |p| - 1 ==> BindsProject(glob, scopes, project, rows, p[i], p[i + 1])
  }

  /** Pruning deletes a row exactly when it is generated, inside the project, and either between
      manifests apart or implied by a longer way; what stays, stays as it was. */
  lemma PrunedRowsAre(glob: Glob, scopes: map<JobId, PyValue>, project: set<JobId>, before: Rows, after: Rows, a: JobId,
                      b: JobId)
    requires IsReconciled(glob, scopes, project, before, after)
    ensures (a, b) in after <==>
            && (a, b) in before
            && (a in project && b in project && before[(a, b)] == "auto" ==>
                  !AreApart(glob, scopes, a, b) && !IsImplied(glob, scopes, project, before, a, b))
    ensures (a, b) in after ==> after[(a, b)] == before[(a, b)]
  {
    hide IsMinimized, AreApart, IsImplied, HasLongWay;
    var mine := OfProject(before, project);
    var es := EdgesOf(mine);
    var r :| IsMinimized(glob, scopes, es, r) && r.Minimal? && after == AfterPruning(before, project, r);
    if (a, b) in before && a in project && b in project {
      var e := Edge(a, b, before[(a, b)]);
      SurvivorsAre(glob, scopes, es, r, e);
      MinimizedIsKnown(glob, scopes, es, r);
      RowsAreEdges(before, project, a, b);
      ImpliedIff(glob, scopes, project, before, a, b);
    }
  }

  lemma MinimizedIsKnown(glob: Glob, scopes: map<JobId, PyValue>, es: set<Edge>, r: Outcome)
    requires IsMinimized(glob, scopes, es, r) && r.Minimal?
    ensures forall e :: e in es ==> KnownProvenance(e.provenance)
  {
  }

  lemma RowsAreEdges(rows: Rows, project: set<JobId>, a: JobId, b: JobId)
    ensures forall p :: Edge(a, b, p) in EdgesOf(OfProject(rows, project)) <==>
              (a, b) in rows && a in project && b in project && p == rows[(a, b)]
  {
    var mine := OfProject(rows, project);
    forall p ensures Edge(a, b, p) in EdgesOf(mine) <==> (a, b) in mine && p == mine[(a, b)] {
      if (a, b) in mine && p == mine[(a, b)] { assert Edge((a, b).0, (a, b).1, mine[(a, b)]) in EdgesOf(mine); }
    }
  }

  lemma ImpliedIff(glob: Glob, scopes: map<JobId, PyValue>, project: set<JobId>, rows: Rows, a: JobId, b: JobId)
    requires forall e :: e in EdgesOf(OfProject(rows, project)) ==> KnownProvenance(e.provenance)
    ensures HasLongWay(glob, scopes, EdgesOf(OfProject(rows, project)), a, b) <==>
            IsImplied(glob, scopes, project, rows, a, b)
  {
    hide AreApart;
    var es := EdgesOf(OfProject(rows, project));
    forall u, v ensures MustOrder(glob, scopes, es, u, v) <==> BindsProject(glob, scopes, project, rows, u, v) {
      RowsAreEdges(rows, project, u, v);
      if (u, v) in rows && u in project && v in project { assert Edge(u, v, rows[(u, v)]) in es; }
    }
    hide MustOrder, BindsProject;
    if p :| IsLongWay(glob, scopes, es, p, a, b) {
      assert forall i :: 0 <= i < |p| - 1 ==> BindsProject(glob, scopes, project, rows, p[i], p[i + 1]);
    }
    if IsImplied(glob, scopes, project, rows, a, b) {
      var p: seq<JobId> :| |p| > 2 && p[0] == a && p[|p| - 1] == b &&
        forall i :: 0 <= i < |p| - 1 ==> BindsProject(glob, scopes, project, rows, p[i], p[i + 1]);
      assert IsLongWay(glob, scopes, es, p, a, b);
    }
  }

  // ---- the table after a split ---------------------------------------------------------------------

  /** The child takes over from the parent: no other child waits for it. */
  ghost predicate TakesOver(rows: Rows, children: seq<JobId>, c: JobId) {
    c in children && forall d :: d in children ==> (d, c) !in rows
  }

  ghost predicate WasOf(rows: Rows, a: JobId, b: JobId, provenance: string) {
    (a, b) in rows && rows[(a, b)] == provenance
  }

  /** Nobody waits for the parent any more, whoever did waits for every child that takes over, and
      all else is as it was; of two provenances the stronger stays. */
  lemma MovedRowsAre(rows: Rows, parent: JobId, children: seq<JobId>, a: JobId, b: JobId)
    requires Provenanced(rows)
    ensures var after := RepointedRows(rows, parent, children);
            var moved := (a, parent) in rows && TakesOver(rows, children, b);
            var stays := (a, b) in rows && b != parent;
            && ((a, b) in after <==> moved || stays)
            && (stays && !moved ==> after[(a, b)] == rows[(a, b)])
            && (moved && !stays ==> after[(a, b)] == rows[(a, parent)])
            && (moved && stays ==>
                  after[(a, b)] == if WasOf(rows, a, b, "user") || WasOf(rows, a, parent, "user") then "user"
                                   else if WasOf(rows, a, b, "semantic") || WasOf(rows, a, parent, "semantic")
                                   then "semantic" else "auto")
  {
    hide FanOut, Kept, Stronger;
    FanOutHasRow(rows.Keys, parent, children, (a, b));
    if (a, b) in rows && (a, parent) in rows { StrongerIs(rows[(a, b)], rows[(a, parent)]); }
  }

  // ---- the table after a filing --------------------------------------------------------------------

  /** Entry i declares the job it waits for by its place, counted from the first entry, or backwards
      from the entry itself. */
  ghost predicate Declares(specs: seq<FixSpec>, ids: seq<JobId>, i: nat, dep: JobId)
    requires i < |specs| == |ids|
  {
    exists d :: d in specs[i].dependsOnIndexes && 0 <= i + d && d < i && dep == ids[if d < 0 then i + d else d]
  }

  ghost predicate NamesQueued(specs: seq<FixSpec>, ids: seq<JobId>, i: nat, dep: JobId)
    requires i < |specs| == |ids|
  {
    dep in specs[i].dependsOnJobIds
  }

  /** Before pruning, the edges filed are: every entry to what it declares, semantic; every entry to
      the queued jobs it names, generated; and the incident to the last entry, semantic. */
  lemma FiledEdgesAre(incident: JobId, specs: seq<FixSpec>, ids: seq<JobId>, e: Edge)
    requires 0 < |ids| == |specs| && IndicesFit(specs)
    ensures IsProposed(incident, specs, ids, e) <==>
            || (e.provenance == "semantic" &&
                exists i: nat :: i < |ids| && ids[i] == e.job && Declares(specs, ids, i, e.dep))
            || (e.provenance == "auto" &&
                exists i: nat :: i < |ids| && ids[i] == e.job && NamesQueued(specs, ids, i, e.dep))
            || e == Edge(incident, ids[|ids| - 1], "semantic")
  {
    hide InChain, InQueue, Declares;
    ChainIsDeclared(specs, ids, Key(e));
    QueueIsNamed(specs, ids, Key(e));
  }

  lemma ChainIsDeclared(specs: seq<FixSpec>, ids: seq<JobId>, k: (JobId, JobId))
    requires |ids| == |specs| && IndicesFit(specs)
    ensures InChain(specs, ids, k) <==> exists i: nat :: i < |ids| && ids[i] == k.0 && Declares(specs, ids, i, k.1)
  {
    if InChain(specs, ids, k) {
      var i, d :| 0 <= i < |specs| && d in specs[i].dependsOnIndexes &&
                  k == (ids[i], ids[RemediationFiling.Place(d, i)]);
      assert Declares(specs, ids, i, k.1);
    }
    if i: nat :| i < |ids| && ids[i] == k.0 && Declares(specs, ids, i, k.1) {
      var d :| d in specs[i].dependsOnIndexes && 0 <= i + d && d < i && k.1 == ids[if d < 0 then i + d else d];
      assert k == (ids[i], ids[RemediationFiling.Place(d, i)]);
    }
  }

  lemma QueueIsNamed(specs: seq<FixSpec>, ids: seq<JobId>, k: (JobId, JobId))
    requires |ids| == |specs|
    ensures InQueue(specs, ids, k) <==> exists i: nat :: i < |ids| && ids[i] == k.0 && NamesQueued(specs, ids, i, k.1)
  {
    if i :| 0 <= i < |specs| && ids[i] == k.0 && k.1 in specs[i].dependsOnJobIds {
      assert NamesQueued(specs, ids, i, k.1);
    }
  }
}
