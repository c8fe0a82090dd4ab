/** The dependency table (hyqs/pipeline/store.py): its upsert, its cycle test, and the pruning of
    a project's generated rows. */
module JobDependencies {
  import opened PyValues
  import opened Sorting
  import opened Graphs
  import opened DependencyMinimizer
  import opened DependencyTheorems

  /** The provenance of each (job, dependency) row. */
  type Rows = map<(JobId, JobId), string>

  function EdgesOf(rows: Rows): set<Edge> {
    set k | k in rows :: Edge(k.0, k.1, rows[k])
  }

  predicate Provenanced(rows: Rows) { forall k :: k in rows ==> KnownProvenance(rows[k]) }

  function Key(e: Edge): (JobId, JobId) { (e.job, e.dep) }

  function Keys(edges: seq<Edge>): set<(JobId, JobId)> { set e | e in edges :: Key(e) }

  // ---- _add_job_dependency_conn ----------------------------------------------------------

  /** The upsert keeps the stronger provenance. */
  function Stronger(p: string, q: string): string {
    if p == "user" || q == "user" then "user" else if p == "semantic" || q == "semantic" then "semantic" else "auto"
  }

  function Upsert(rows: Rows, e: Edge): Rows {
    rows[Key(e) := if Key(e) in rows then Stronger(rows[Key(e)], e.provenance) else e.provenance]
  }

  function Upserts(rows: Rows, edges: seq<Edge>): Rows {
    if edges == [] then rows else Upsert(Upserts(rows, edges[..|edges| - 1]), edges[|edges| - 1])
  }

  lemma {:induction false} UpsertsKeys(rows: Rows, edges: seq<Edge>)
    ensures Upserts(rows, edges).Keys == rows.Keys + Keys(edges)
  {
    if edges != [] {
      var n := |edges| - 1;
      UpsertsKeys(rows, edges[..n]);
      assert edges == edges[..n] + [edges[n]];
      assert Keys(edges) == Keys(edges[..n]) + {Key(edges[n])};
    }
  }

  /** What one row becomes when everything inserted for it carries the same provenance. */
  lemma {:induction false} UpsertsAt(rows: Rows, edges: seq<Edge>, k: (JobId, JobId), p: string)
    requires forall e :: e in edges && Key(e) == k ==> e.provenance == p
    requires KnownProvenance(p) || forall i, j :: 0 <= i < j < |edges| ==> Key(edges[i]) != Key(edges[j])
    ensures RowBecomes(rows, Upserts(rows, edges), k, k in Keys(edges), p)
  {
    hide RowBecomes, Stronger, KnownProvenance;
    if edges == [] {
      NothingGiven(rows, k, p);
    } else {
      var init, e := edges[..|edges| - 1], edges[|edges| - 1];
      assert edges == init + [e];
      UpsertsAt(rows, init, k, p);
      LastKey(init, e, k);
      if Key(e) == k {
        UpsertSame(rows, Upserts(rows, init), e, k in Keys(init), p);
      } else {
        UpsertOther(rows, Upserts(rows, init), e, k, k in Keys(init), p);
      }
    }
  }

  /** Row k after upserts from `rows` to `r` that gave it the provenance p, or gave it nothing. */
  predicate RowBecomes(rows: Rows, r: Rows, k: (JobId, JobId), given: bool, p: string) {
    if given then k in r && r[k] == (if k in rows then Stronger(rows[k], p) else p)
    else (k in r <==> k in rows) && (k in rows ==> r[k] == rows[k])
  }

  lemma NothingGiven(rows: Rows, k: (JobId, JobId), p: string)
    ensures RowBecomes(rows, rows, k, false, p)
  {
  }

  lemma LastKey(init: seq<Edge>, e: Edge, k: (JobId, JobId))
    ensures k in Keys(init + [e]) <==> k in Keys(init) || k == Key(e)
    ensures k == Key(e) && k in Keys(init) ==> exists i :: 0 <= i < |init| && Key(init[i]) == Key((init + [e])[|init|])
  {
    assert Keys(init + [e]) == Keys(init) + {Key(e)};
    if k == Key(e) && k in Keys(init) {
      var f :| f in init && Key(f) == k;
    }
  }

  lemma UpsertSame(rows: Rows, r: Rows, e: Edge, given: bool, p: string)
    requires RowBecomes(rows, r, Key(e), given, p) && e.provenance == p && (given ==> KnownProvenance(p))
    ensures RowBecomes(rows, Upsert(r, e), Key(e), true, p)
  {
  }

  lemma UpsertOther(rows: Rows, r: Rows, e: Edge, k: (JobId, JobId), given: bool, p: string)
    requires RowBecomes(rows, r, k, given, p) && Key(e) != k
    ensures RowBecomes(rows, Upsert(r, e), k, given, p)
  {
  }

  /** What was ever given to row k, the row itself included. */
  ghost predicate WasGiven(rows: Rows, edges: seq<Edge>, k: (JobId, JobId), provenance: string) {
    (k in rows && rows[k] == provenance) || Edge(k.0, k.1, provenance) in edges
  }

  /** After any upserts a row is the user's if the user ever gave it, else semantic if it was ever
      given as that, else generated; and there are no rows but the given ones. */
  lemma {:induction false} StrongestEverGiven(rows: Rows, edges: seq<Edge>, k: (JobId, JobId))
    requires Provenanced(rows) && forall e :: e in edges ==> KnownProvenance(e.provenance)
    ensures k in Upserts(rows, edges) <==>
              WasGiven(rows, edges, k, "user") || WasGiven(rows, edges, k, "semantic") ||
              WasGiven(rows, edges, k, "auto")
    ensures k in Upserts(rows, edges) ==>
              Upserts(rows, edges)[k] == (if WasGiven(rows, edges, k, "user") then "user"
                                          else if WasGiven(rows, edges, k, "semantic") then "semantic" else "auto")
  {
    hide Stronger;
    if edges != [] {
      var init, e := edges[..|edges| - 1], edges[|edges| - 1];
      assert edges == init + [e];
      assert e in edges;
      StrongestEverGiven(rows, init, k);
      GivenOnce(rows, init, e, k);
      if Key(e) == k && k in Upserts(rows, init) { StrongerIs(Upserts(rows, init)[k], e.provenance); }
    }
  }

  lemma GivenOnce(rows: Rows, init: seq<Edge>, e: Edge, k: (JobId, JobId))
    ensures forall p :: WasGiven(rows, init + [e], k, p) <==>
              WasGiven(rows, init, k, p) || (Key(e) == k && p == e.provenance)
  {
    assert forall p :: Edge(k.0, k.1, p) == e <==> Key(e) == k && p == e.provenance;
  }

  lemma StrongerIs(p: string, q: string)
    requires KnownProvenance(p) && KnownProvenance(q)
    ensures Stronger(p, q) == "user" <==> p == "user" || q == "user"
    ensures Stronger(p, q) == "auto" <==> p == "auto" && q == "auto"
    ensures Stronger(p, q) in {"user", "semantic", "auto"}
  {
  }

  lemma {:induction false} UpsertsAreProvenanced(rows: Rows, edges: seq<Edge>)
    requires Provenanced(rows) && forall e :: e in edges ==> KnownProvenance(e.provenance)
    ensures Provenanced(Upserts(rows, edges))
  {
    if edges != [] {
      assert edges == edges[..|edges| - 1] + [edges[|edges| - 1]];
      UpsertsAreProvenanced(rows, edges[..|edges| - 1]);
    }
  }

  // ---- _dependency_topo_order --------------------------------------------------------------

  method TopologicalOrderExists(g: set<(JobId, JobId)>) returns (ok: bool)
    ensures ok <==> Acyclic(g)
  {
    var nodes := (set k | k in g :: k.0) + (set k | k in g :: k.1);
    var adjacency := AdjacencyOf(g);
    var order := KahnOrder(nodes, adjacency, g);
    ok := |order| == |nodes|;
  }

  // ---- _reconcile_auto_dependencies_conn -----------------------------------------------------

  function OfProject(rows: Rows, project: set<JobId>): Rows {
    map k | k in rows && k.0 in project && k.1 in project :: rows[k]
  }

  /** Other projects' rows stay; of this project's, those the minimiser returned. */
  function AfterPruning(rows: Rows, project: set<JobId>, r: Outcome): Rows
    requires r.Minimal?
  {
    map k | k in rows && (k in OfProject(rows, project) ==> Edge(k.0, k.1, rows[k]) in r.edges) :: rows[k]
  }

  ghost predicate IsReconciled(glob: Glob, scopes: map<JobId, PyValue>, project: set<JobId>, before: Rows, after: Rows)
  {
    exists r :: IsMinimized(glob, scopes, EdgesOf(OfProject(before, project)), r) && r.Minimal? &&
                after == AfterPruning(before, project, r)
  }

  method ListOf<T>(s: set<T>) returns (q: seq<T>)
    ensures forall x :: x in q <==> x in s
  {
    q := [];
    var rest := s;
    while rest != {}
      invariant rest <= s && forall x :: x in q <==> x in s && x !in rest
      decreases rest
    {
      var x := Pick(rest);
      q, rest := q + [x], rest - {x};
    }
  }

  class DependencyTable {
    var rows: Rows

    constructor (rows: Rows)
      ensures this.rows == rows
    {
      this.rows := rows;
    }

    method AddDependency(e: Edge)
      modifies this
      ensures rows == Upsert(old(rows), e)
    {
      rows := rows[Key(e) := if Key(e) in rows then Stronger(rows[Key(e)], e.provenance) else e.provenance];
    }

    /** The rows of one transaction, one after the other. */
    method AddDependencies(edges: seq<Edge>)
      modifies this
      ensures rows == Upserts(old(rows), edges)
    {
      for i := 0 to |edges|
        invariant rows == Upserts(old(rows), edges[..i])
      {
        assert edges[..i + 1][..i] == edges[..i];
        AddDependency(edges[i]);
      }
      assert edges[..|edges|] == edges;
    }

    /** Delete what the minimiser does not return. */
    method Reconcile(glob: Glob, scopes: map<JobId, PyValue>, project: set<JobId>) returns (raised: bool)
      modifies this
      ensures !raised ==> IsReconciled(glob, scopes, project, old(rows), rows)
      ensures raised ==> rows == old(rows) && !(Provenanced(rows) && Acyclic(rows.Keys))
    {
      var mine := OfProject(rows, project);
      var original := ListOf(EdgesOf(mine));
      var r := MinimizeAutoDependencies(glob, scopes, original);
      assert SetOf(original) == EdgesOf(mine);
      raised := !r.Minimal?;
      if raised {
        NotRaised(glob, scopes, rows, project, r);
        return;
      }
      rows := AfterPruning(rows, project, r);
    }
  }

  lemma PairsOfRows(rows: Rows)
    ensures Pairs(EdgesOf(rows)) == rows.Keys
    ensures forall k :: k in rows ==> Edge(k.0, k.1, rows[k]) in EdgesOf(rows)
  {
    forall k | k in rows ensures k in Pairs(EdgesOf(rows)) {
      assert Edge(k.0, k.1, rows[k]) in EdgesOf(rows);
    }
  }

  lemma NotRaised(glob: Glob, scopes: map<JobId, PyValue>, rows: Rows, project: set<JobId>, r: Outcome)
    requires IsMinimized(glob, scopes, EdgesOf(OfProject(rows, project)), r) && !r.Minimal?
    ensures !(Provenanced(rows) && Acyclic(rows.Keys))
  {
    if Provenanced(rows) && Acyclic(rows.Keys) {
      var mine := OfProject(rows, project);
      PairsOfRows(mine);
      SubgraphIsAcyclic(rows.Keys, mine.Keys);
      CycleVerdict(glob, scopes, EdgesOf(mine), r);
    }
  }

  // ---- what pruning keeps ----------------------------------------------------------------------

  /** A row that counts: entered by hand or by meaning, between projects, or between scopes not
      known to be disjoint. */
  predicate Stands(glob: Glob, scopes: map<JobId, PyValue>, project: set<JobId>, k: (JobId, JobId), provenance: string)
  {
    provenance != "auto" || k.0 !in project || k.1 !in project || !KnownDisjoint(glob, scopes, k.0, k.1)
  }

  function Standing(glob: Glob, scopes: map<JobId, PyValue>, project: set<JobId>, rows: Rows): set<(JobId, JobId)> {
    set k | k in rows && Stands(glob, scopes, project, k, rows[k])
  }

  /** Pruning orders exactly what the standing rows order; and it deletes generated rows only. */
  lemma PruningKeepsStandingOrder(glob: Glob, scopes: map<JobId, PyValue>, project: set<JobId>, before: Rows,
                                  after: Rows)
    requires IsReconciled(glob, scopes, project, before, after)
    ensures SameReachability(after.Keys, Standing(glob, scopes, project, before))
    ensures forall k :: k in after ==> k in before && after[k] == before[k]
    ensures forall k :: k in before && before[k] != "auto" ==> k in after
  {
    hide IsMinimized, KnownDisjoint, Base, SameReachability, Strongest;
    var mine := OfProject(before, project);
    var es := EdgesOf(mine);
    var r :| IsMinimized(glob, scopes, es, r) && r.Minimal? && after == AfterPruning(before, project, r);
    ReachabilityPreserved(glob, scopes, es, r);
    CycleVerdict(glob, scopes, es, r);
    var rest := before.Keys - mine.Keys;
    SameBeside(rest, Out(r), Base(glob, scopes, es));
    KeptIsThere(glob, scopes, before, project, r, after);
    BaseStands(glob, scopes, before, project);
    forall k | k in before && before[k] != "auto" ensures k in after {
      if k in mine { ProtectedStays(glob, scopes, before, project, r, k); }
    }
  }

  lemma ProtectedStays(glob: Glob, scopes: map<JobId, PyValue>, rows: Rows, project: set<JobId>, r: Outcome,
                       k: (JobId, JobId))
    requires IsMinimized(glob, scopes, EdgesOf(OfProject(rows, project)), r) && r.Minimal?
    requires k in OfProject(rows, project) && rows[k] != "auto"
    ensures Edge(k.0, k.1, rows[k]) in r.edges
  {
    hide IsMinimized;
    var mine := OfProject(rows, project);
    var e := Edge(k.0, k.1, mine[k]);
    PairsOfRows(mine);
    OrderingsKept(glob, scopes, EdgesOf(mine), r, e);
    var f :| f in r.edges && f.job == e.job && f.dep == e.dep;
    assert f in EdgesOf(mine);
  }

  lemma KeptIsThere(glob: Glob, scopes: map<JobId, PyValue>, rows: Rows, project: set<JobId>, r: Outcome, after: Rows)
    requires IsMinimized(glob, scopes, EdgesOf(OfProject(rows, project)), r) && r.Minimal?
    requires after == AfterPruning(rows, project, r)
    ensures after.Keys == (rows.Keys - OfProject(rows, project).Keys) + Out(r)
  {
    hide IsMinimized;
    var mine := OfProject(rows, project);
    forall k | k in Out(r) ensures k in mine && k in after {
      var e :| e in SetOf(r.edges) && k == (e.job, e.dep);
      OutputIsGiven(glob, scopes, EdgesOf(mine), r, e);
    }
    forall k | k in after && k in mine ensures k in Out(r) {
      assert Edge(k.0, k.1, rows[k]) in SetOf(r.edges);
    }
  }

  lemma OutputIsGiven(glob: Glob, scopes: map<JobId, PyValue>, es: set<Edge>, r: Outcome, e: Edge)
    requires IsMinimized(glob, scopes, es, r) && r.Minimal? && e in r.edges
    ensures e in es
  {
    StrongestIsGiven(glob, scopes, es, e);
  }

  lemma BaseStands(glob: Glob, scopes: map<JobId, PyValue>, rows: Rows, project: set<JobId>)
    requires forall e :: e in EdgesOf(OfProject(rows, project)) ==> KnownProvenance(e.provenance)
    ensures (rows.Keys - OfProject(rows, project).Keys) + Base(glob, scopes, EdgesOf(OfProject(rows, project)))
         == Standing(glob, scopes, project, rows)
  {
    hide KnownDisjoint;
    var mine := OfProject(rows, project);
    var es := EdgesOf(mine);
    PairsOfRows(mine);
    forall k | k in mine ensures Strongest(es, k) == mine[k] {
      assert Edge(k.0, k.1, mine[k]) in es;
      assert forall p :: Edge(k.0, k.1, p) in es ==> p == mine[k];
    }
  }

  /** A row that stands keeps its order. */
  lemma StandingRowIsOrdered(glob: Glob, scopes: map<JobId, PyValue>, project: set<JobId>, before: Rows, after: Rows,
                             k: (JobId, JobId))
    requires IsReconciled(glob, scopes, project, before, after)
    requires k in before && Stands(glob, scopes, project, k, before[k])
    ensures Reaches(after.Keys, k.0, k.1)
  {
    PruningKeepsStandingOrder(glob, scopes, project, before, after);
    EdgeReaches(Standing(glob, scopes, project, before), k.0, k.1);
  }
}
