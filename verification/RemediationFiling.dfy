/** Filing a fix chain for a failed job: `create_supervisor_remediation` (hyqs/pipeline/store.py),
    as the janitor calls it (hyqs/pipeline/supervisor.py).

    `ids` are the ids the database gives the new jobs, in order. */
module RemediationFiling {
  import opened PyValues
  import opened Graphs
  import opened DependencyMinimizer
  import opened ChainScheduling
  import opened JobDependencies

  /** One entry of `jobs_spec`: earlier entries by index, and queued jobs by id. */
  datatype FixSpec = FixSpec(dependsOnIndexes: seq<int>, dependsOnJobIds: seq<JobId>)

  datatype Filing = Filed | NoJobs | IndexError | Refused

  /** An index into the ids created before entry i: a negative one counts from the end. */
  predicate Fits(d: int, i: nat) { 0 <= i + d && d < i }

  function Place(d: int, i: nat): (k: nat)
    requires Fits(d, i)
    ensures k < i
  {
    if d < 0 then i + d else d
  }

  predicate IndicesFit(specs: seq<FixSpec>) {
    forall i, d :: 0 <= i < |specs| && d in specs[i].dependsOnIndexes ==> Fits(d, i)
  }

  // ---- the proposed edges ----------------------------------------------------------------

  /** Between the new jobs. */
  ghost predicate InChain(specs: seq<FixSpec>, ids: seq<JobId>, k: (JobId, JobId))
    requires |ids| == |specs| && IndicesFit(specs)
  {
    exists i, d :: 0 <= i < |specs| && d in specs[i].dependsOnIndexes && k == (ids[i], ids[Place(d, i)])
  }

  /** From a new job to a queued one. */
  ghost predicate InQueue(specs: seq<FixSpec>, ids: seq<JobId>, k: (JobId, JobId))
    requires |ids| == |specs|
  {
    exists i :: 0 <= i < |specs| && ids[i] == k.0 && k.1 in specs[i].dependsOnJobIds
  }

  ghost predicate IsProposed(incident: JobId, specs: seq<FixSpec>, ids: seq<JobId>, e: Edge)
    requires 0 < |ids| == |specs| && IndicesFit(specs)
  {
    || (InChain(specs, ids, Key(e)) && e.provenance == "semantic")
    || (InQueue(specs, ids, Key(e)) && e.provenance == "auto")
    || e == Edge(incident, ids[|ids| - 1], "semantic")
  }

  /** The edges of one entry, given the ids created before it. */
  method EntryProposal(spec: FixSpec, created: seq<JobId>, newId: JobId) returns (fits: bool, edges: seq<Edge>)
    ensures fits <==> forall d :: d in spec.dependsOnIndexes ==> Fits(d, |created|)
    ensures fits ==> forall e :: e in edges <==>
              || (exists d :: d in spec.dependsOnIndexes && e == Edge(newId, created[Place(d, |created|)], "semantic"))
              || (e.job == newId && e.dep in spec.dependsOnJobIds && e.provenance == "auto")
  {
    edges := [];
    var n := |created|;
    var deps := spec.dependsOnIndexes;
    for k := 0 to |deps|
      invariant forall j :: 0 <= j < k ==> Fits(deps[j], n)
      invariant forall e :: e in edges <==>
                  exists j :: 0 <= j < k && e == Edge(newId, created[Place(deps[j], n)], "semantic")
    {
      if !Fits(deps[k], n) {
        return false, [];
      }
      edges := edges + [Edge(newId, created[Place(deps[k], n)], "semantic")];
    }
    ghost var chain := edges;
    for k := 0 to |spec.dependsOnJobIds|
      invariant forall e :: e in edges <==>
                  e in chain || (e.job == newId && e.dep in spec.dependsOnJobIds[..k] && e.provenance == "auto")
    {
      var xs := spec.dependsOnJobIds;
      assert xs[..k + 1] == xs[..k] + [xs[k]];
      edges := edges + [Edge(newId, xs[k], "auto")];
    }
    assert spec.dependsOnJobIds[..|spec.dependsOnJobIds|] == spec.dependsOnJobIds;
    fits := true;
  }

  /** What entry i proposes. */
  ghost predicate OfEntry(specs: seq<FixSpec>, ids: seq<JobId>, i: nat, e: Edge)
    requires i < |specs| == |ids|
  {
    || (exists d :: d in specs[i].dependsOnIndexes && Fits(d, i) && e == Edge(ids[i], ids[Place(d, i)], "semantic"))
    || (e.job == ids[i] && e.dep in specs[i].dependsOnJobIds && e.provenance == "auto")
  }

  method ProposedEdges(incident: JobId, specs: seq<FixSpec>, ids: seq<JobId>) returns (fits: bool, edges: seq<Edge>)
    requires 0 < |ids| == |specs|
    ensures fits <==> IndicesFit(specs)
    ensures fits ==> forall e :: e in edges <==> IsProposed(incident, specs, ids, e)
  {
    edges := [];
    for i := 0 to |specs|
      invariant forall j, d :: 0 <= j < i && d in specs[j].dependsOnIndexes ==> Fits(d, j)
      invariant forall e :: e in edges <==> exists j :: 0 <= j < i && OfEntry(specs, ids, j, e)
    {
      var ok, more := EntryProposal(specs[i], ids[..i], ids[i]);
      if !ok {
        return false, [];
      }
      assert forall e :: e in more <==> OfEntry(specs, ids, i, e);
      edges := edges + more;
    }
    fits := true;
    EntriesPropose(specs, ids);
    edges := edges + [Edge(incident, ids[|ids| - 1], "semantic")];
  }

  lemma EntriesPropose(specs: seq<FixSpec>, ids: seq<JobId>)
    requires |ids| == |specs| && IndicesFit(specs)
    ensures forall e: Edge :: (exists j :: 0 <= j < |specs| && OfEntry(specs, ids, j, e)) <==>
              (InChain(specs, ids, Key(e)) && e.provenance == "semantic") ||
              (InQueue(specs, ids, Key(e)) && e.provenance == "auto")
  {
    forall e: Edge | (InChain(specs, ids, Key(e)) && e.provenance == "semantic") ||
                     (InQueue(specs, ids, Key(e)) && e.provenance == "auto")
      ensures exists j :: 0 <= j < |specs| && OfEntry(specs, ids, j, e)
    {
      if InChain(specs, ids, Key(e)) && e.provenance == "semantic" {
        var i, d :| 0 <= i < |specs| && d in specs[i].dependsOnIndexes && Key(e) == (ids[i], ids[Place(d, i)]);
        assert OfEntry(specs, ids, i, e);
      } else {
        var i :| 0 <= i < |specs| && ids[i] == e.job && e.dep in specs[i].dependsOnJobIds;
        assert OfEntry(specs, ids, i, e);
      }
    }
  }

  // ---- create_supervisor_remediation -------------------------------------------------------

  ghost predicate IsFiledGraph(g: set<(JobId, JobId)>, incident: JobId, specs: seq<FixSpec>, ids: seq<JobId>,
                               h: set<(JobId, JobId)>)
    requires 0 < |ids| == |specs| && IndicesFit(specs)
  {
    forall k :: k in h <==> k in g || InChain(specs, ids, k) || InQueue(specs, ids, k) ||
                            k == (incident, ids[|ids| - 1])
  }

  /** The proposed rows are in the table, and its project's generated rows are minimised. */
  ghost predicate IsFiled(glob: Glob, scopes: map<JobId, PyValue>, project: set<JobId>, incident: JobId,
                          specs: seq<FixSpec>, ids: seq<JobId>, before: Rows, after: Rows)
    requires 0 < |ids| == |specs| && IndicesFit(specs)
  {
    exists edges :: (forall e :: e in edges <==> IsProposed(incident, specs, ids, e))
                 && Acyclic(Upserts(before, edges).Keys)
                 && IsReconciled(glob, scopes, project, Upserts(before, edges), after)
  }

  /** One transaction: unless the chain is filed, the table is as it was. */
  method CreateSupervisorRemediation(table: DependencyTable, glob: Glob, scopes: map<JobId, PyValue>,
                                     project: set<JobId>,
                                     incident: JobId, specs: seq<FixSpec>, ids: seq<JobId>)
    returns (r: Filing)
    requires |ids| == |specs|
    modifies table
    ensures r.NoJobs? <==> specs == []
    ensures r.IndexError? <==> exists i, d :: 0 <= i < |specs| && d in specs[i].dependsOnIndexes && !(-i <= d < i)
    ensures r.Filed? ==> IsFiled(glob, scopes, project, incident, specs, ids, old(table.rows), table.rows)
    ensures !r.Filed? ==> table.rows == old(table.rows)
    ensures Provenanced(old(table.rows)) && specs != [] && IndicesFit(specs) ==>
              forall h :: IsFiledGraph(old(table.rows.Keys), incident, specs, ids, h) ==> (r.Filed? <==> Acyclic(h))
  {
    if specs == [] {
      return NoJobs;
    }
    var saved := table.rows;
    var fits, edges := ProposedEdges(incident, specs, ids);
    if !fits {
      return IndexError;
    }
    KeysAreFiled(saved.Keys, incident, specs, ids, edges);
    var acyclic := TopologicalOrderExists(saved.Keys + Keys(edges));
    if !acyclic {
      return Refused;
    }
    table.AddDependencies(edges);
    UpsertsKeys(saved, edges);
    if Provenanced(saved) { UpsertsAreProvenanced(saved, edges); }
    var raised := table.Reconcile(glob, scopes, project);
    if raised {
      table.rows := saved;
      return Refused;
    }
    return Filed;
  }

  lemma KeysAreFiled(g: set<(JobId, JobId)>, incident: JobId, specs: seq<FixSpec>, ids: seq<JobId>, edges: seq<Edge>)
    requires 0 < |ids| == |specs| && IndicesFit(specs)
    requires forall e :: e in edges <==> IsProposed(incident, specs, ids, e)
    ensures IsFiledGraph(g, incident, specs, ids, g + Keys(edges))
    ensures forall h :: IsFiledGraph(g, incident, specs, ids, h) ==> h == g + Keys(edges)
  {
    hide InChain, InQueue;
    forall k | InChain(specs, ids, k) || InQueue(specs, ids, k) || k == (incident, ids[|ids| - 1])
      ensures k in Keys(edges)
    {
      var e := Edge(k.0, k.1, if InQueue(specs, ids, k) then "auto" else "semantic");
      assert Key(e) == k && IsProposed(incident, specs, ids, e);
    }
  }

  // ---- when filing is refused ----------------------------------------------------------------

  /** The database never gave out these ids: no row and no entry knows them. */
  ghost predicate AreFresh(g: set<(JobId, JobId)>, incident: JobId, specs: seq<FixSpec>, ids: seq<JobId>) {
    && (forall i, j :: 0 <= i < j < |ids| ==> ids[i] != ids[j])
    && incident !in ids
    && (forall k :: k in g ==> k.0 !in ids && k.1 !in ids)
    && forall i, x :: 0 <= i < |specs| && x in specs[i].dependsOnJobIds ==> x !in ids
  }

  ghost predicate IsFiling(g: set<(JobId, JobId)>, incident: JobId, specs: seq<FixSpec>, ids: seq<JobId>) {
    0 < |ids| == |specs| && IndicesFit(specs) && AreFresh(g, incident, specs, ids)
  }

  /** The edges between the new jobs. */
  ghost predicate IsChain(specs: seq<FixSpec>, ids: seq<JobId>, chain: set<(JobId, JobId)>)
    requires |ids| == |specs| && IndicesFit(specs)
  {
    forall k :: k in chain <==> InChain(specs, ids, k)
  }

  /** Job x is awaited by an entry that u comes to through the chain. */
  ghost predicate AwaitsQueued(specs: seq<FixSpec>, ids: seq<JobId>, chain: set<(JobId, JobId)>, u: JobId, x: JobId)
    requires |ids| == |specs|
  {
    exists j :: 0 <= j < |specs| && x in specs[j].dependsOnJobIds && Leads(chain, u, ids[j])
  }

  /** A queued job the last entry comes to waits for the incident, or is it. */
  ghost predicate QueueWaits(g: set<(JobId, JobId)>, incident: JobId, specs: seq<FixSpec>, ids: seq<JobId>,
                             chain: set<(JobId, JobId)>)
    requires 0 < |ids| == |specs|
  {
    exists x :: AwaitsQueued(specs, ids, chain, ids[|ids| - 1], x) && Leads(g, x, incident)
  }

  /** Without the incident's own new edge. */
  ghost predicate IsHung(g: set<(JobId, JobId)>, specs: seq<FixSpec>, ids: seq<JobId>, h: set<(JobId, JobId)>)
    requires |ids| == |specs| && IndicesFit(specs)
  {
    forall k :: k in h <==> k in g || InChain(specs, ids, k) || InQueue(specs, ids, k)
  }

  lemma OldStaysOld(g: set<(JobId, JobId)>, ids: seq<JobId>, x: JobId, v: JobId)
    requires forall k :: k in g ==> k.0 !in ids && k.1 !in ids
    requires x !in ids && Leads(g, x, v)
    ensures v !in ids
  {
    if x != v {
      var p :| IsPath(g, p, x, v);
      assert (p[|p| - 2], p[|p| - 2 + 1]) in g;
    }
  }

  lemma {:induction false} HungPath(g: set<(JobId, JobId)>, incident: JobId, specs: seq<FixSpec>, ids: seq<JobId>,
                                    chain: set<(JobId, JobId)>, h: set<(JobId, JobId)>, p: seq<JobId>, u: JobId,
                                    v: JobId)
    requires IsFiling(g, incident, specs, ids) && IsChain(specs, ids, chain) && IsHung(g, specs, ids, h)
    requires IsPath(h, p, u, v)
    ensures u !in ids ==> Reaches(g, u, v)
    ensures u in ids && v in ids ==> Reaches(chain, u, v)
    ensures u in ids && v !in ids ==> exists x :: AwaitsQueued(specs, ids, chain, u, x) && Leads(g, x, v)
    decreases |p|
  {
    hide InChain, InQueue, AwaitsQueued;
    var w := p[|p| - 2];
    assert (p[|p| - 2], p[|p| - 2 + 1]) in h;
    if |p| > 2 {
      assert IsPath(h, p[..|p| - 1], u, w);
      HungPath(g, incident, specs, ids, chain, h, p[..|p| - 1], u, w);
    }
    NewEnds(g, incident, specs, ids, (w, v));
    if u !in ids {
      OldStaysOld(g, ids, u, w) by { if u != w { assert Reaches(g, u, w); } }
      EdgeReaches(g, w, v);
      LeadsOn(g, u, w, v);
    } else if w !in ids {
      var x :| AwaitsQueued(specs, ids, chain, u, x) && Leads(g, x, w);
      EdgeReaches(g, w, v);
      LeadsOn(g, x, w, v);
    } else if v in ids {
      EdgeReaches(chain, w, v);
      LeadsOn(chain, u, w, v);
    } else {
      AwaitsAtOnce(specs, ids, chain, u, w, v);
      assert Leads(g, v, v);
    }
  }

  lemma AwaitsAtOnce(specs: seq<FixSpec>, ids: seq<JobId>, chain: set<(JobId, JobId)>, u: JobId, w: JobId, x: JobId)
    requires |ids| == |specs| && Leads(chain, u, w) && InQueue(specs, ids, (w, x))
    ensures AwaitsQueued(specs, ids, chain, u, x)
  {
  }

  /** Where an edge of each kind starts and ends. */
  lemma NewEnds(g: set<(JobId, JobId)>, incident: JobId, specs: seq<FixSpec>, ids: seq<JobId>, k: (JobId, JobId))
    requires IsFiling(g, incident, specs, ids)
    ensures k in g ==> k.0 !in ids && k.1 !in ids
    ensures InChain(specs, ids, k) ==> k.0 in ids && k.1 in ids
    ensures InQueue(specs, ids, k) ==> k.0 in ids && k.1 !in ids
  {
  }

  lemma ChainIsAcyclic(g: set<(JobId, JobId)>, incident: JobId, specs: seq<FixSpec>, ids: seq<JobId>,
                       chain: set<(JobId, JobId)>)
    requires IsFiling(g, incident, specs, ids) && IsChain(specs, ids, chain)
    ensures Acyclic(chain)
  {
    var rank := map i | 0 <= i < |ids| :: ids[i] := i;
    forall k | k in chain ensures k.0 in rank && k.1 in rank && rank[k.1] < rank[k.0] {
      var i, d :| 0 <= i < |specs| && d in specs[i].dependsOnIndexes && k == (ids[i], ids[Place(d, i)]);
      assert rank[ids[i]] == i && rank[ids[Place(d, i)]] == Place(d, i);
    }
    RankedIsAcyclic(chain, rank);
  }

  lemma HungIsAcyclic(g: set<(JobId, JobId)>, incident: JobId, specs: seq<FixSpec>, ids: seq<JobId>,
                      chain: set<(JobId, JobId)>, h: set<(JobId, JobId)>)
    requires IsFiling(g, incident, specs, ids) && IsChain(specs, ids, chain) && IsHung(g, specs, ids, h)
    ensures Acyclic(h) <==> Acyclic(g)
  {
    assert g <= h;
    if Acyclic(h) { SubgraphIsAcyclic(h, g); }
    ChainIsAcyclic(g, incident, specs, ids, chain);
    if Acyclic(g) {
      forall u | Reaches(h, u, u) ensures false {
        var p :| IsPath(h, p, u, u);
        HungPath(g, incident, specs, ids, chain, h, p, u, u);
      }
    }
  }

  lemma AwaitedIsReached(specs: seq<FixSpec>, ids: seq<JobId>, chain: set<(JobId, JobId)>, h: set<(JobId, JobId)>,
                         u: JobId, x: JobId)
    requires |ids| == |specs| && IndicesFit(specs) && chain <= h
    requires forall k :: InQueue(specs, ids, k) ==> k in h
    requires AwaitsQueued(specs, ids, chain, u, x)
    ensures Reaches(h, u, x)
  {
    var j :| 0 <= j < |specs| && x in specs[j].dependsOnJobIds && Leads(chain, u, ids[j]);
    assert InQueue(specs, ids, (ids[j], x));
    EdgeReaches(h, ids[j], x);
    LeadsMonotone(chain, h, u, ids[j]);
    LeadsOn(h, u, ids[j], x);
  }

  /** Filing is refused exactly when a cycle is there anyway, or some queued job that the last entry
      comes to, through the chain, leads back to the incident. */
  lemma RefusedIffQueueWaits(g: set<(JobId, JobId)>, incident: JobId, specs: seq<FixSpec>, ids: seq<JobId>,
                             chain: set<(JobId, JobId)>, after: set<(JobId, JobId)>)
    requires IsFiling(g, incident, specs, ids) && IsChain(specs, ids, chain)
    requires IsFiledGraph(g, incident, specs, ids, after)
    ensures Acyclic(after) <==> Acyclic(g) && !QueueWaits(g, incident, specs, ids, chain)
  {
    hide InChain, InQueue, AwaitsQueued, Joined;
    var last := ids[|ids| - 1];
    var h := Hung(g, incident, specs, ids, after);
    JoinIsAcyclic(h, {incident}, {last});
    HungIsAcyclic(g, incident, specs, ids, chain, h);
    assert Acyclic(after) <==> Acyclic(g) && !Leads(h, last, incident);
    if Reaches(h, last, incident) {
      var p :| IsPath(h, p, last, incident);
      HungPath(g, incident, specs, ids, chain, h, p, last, incident);
    }
    if QueueWaits(g, incident, specs, ids, chain) {
      var x :| AwaitsQueued(specs, ids, chain, last, x) && Leads(g, x, incident);
      AwaitedIsReached(specs, ids, chain, h, last, x);
      LeadsMonotone(g, h, x, incident);
      LeadsOn(h, last, x, incident);
    }
  }

  ghost function Hung(g: set<(JobId, JobId)>, incident: JobId, specs: seq<FixSpec>, ids: seq<JobId>,
                      after: set<(JobId, JobId)>): (h: set<(JobId, JobId)>)
    requires IsFiling(g, incident, specs, ids) && IsFiledGraph(g, incident, specs, ids, after)
    ensures IsHung(g, specs, ids, h)
    ensures after == h + Joined({incident}, {ids[|ids| - 1]})
  {
    var hook := (incident, ids[|ids| - 1]);
    NewEnds(g, incident, specs, ids, hook);
    after - {hook}
  }

  /** Once filed, the incident waits for exactly those entries that the last one waits for, and the
      last: one that nothing else in the chain depends on is not waited for. */
  lemma IncidentWaitsFor(g: set<(JobId, JobId)>, incident: JobId, specs: seq<FixSpec>, ids: seq<JobId>,
                         chain: set<(JobId, JobId)>, after: set<(JobId, JobId)>, i: nat)
    requires IsFiling(g, incident, specs, ids) && IsChain(specs, ids, chain)
    requires IsFiledGraph(g, incident, specs, ids, after) && Acyclic(after) && i < |ids|
    ensures Reaches(after, incident, ids[i]) <==> Leads(chain, ids[|ids| - 1], ids[i])
  {
    hide InChain, InQueue, AwaitsQueued, Joined;
    var last := ids[|ids| - 1];
    var h := Hung(g, incident, specs, ids, after);
    OrderAfterJoin(h, {incident}, {last}, incident, ids[i]);
    if Reaches(h, incident, ids[i]) {
      var p :| IsPath(h, p, incident, ids[i]);
      HungPath(g, incident, specs, ids, chain, h, p, incident, ids[i]);
      OldStaysOld(g, ids, incident, ids[i]);
    }
    if Reaches(h, last, ids[i]) {
      var p :| IsPath(h, p, last, ids[i]);
      HungPath(g, incident, specs, ids, chain, h, p, last, ids[i]);
    }
    assert Leads(h, incident, incident);
    assert chain <= h;
    if Leads(chain, last, ids[i]) { LeadsMonotone(chain, h, last, ids[i]); }
  }

  // ---- through the minimisation that follows -----------------------------------------------------

  /** Each proposed row is new and carries its own provenance. */
  lemma FiledRows(before: Rows, incident: JobId, specs: seq<FixSpec>, ids: seq<JobId>, edges: seq<Edge>, e: Edge)
    requires IsFiling(before.Keys, incident, specs, ids)
    requires forall f :: f in edges <==> IsProposed(incident, specs, ids, f)
    requires IsProposed(incident, specs, ids, e)
    ensures Key(e) in Upserts(before, edges) && Upserts(before, edges)[Key(e)] == e.provenance
  {
    hide InChain, InQueue, Upserts;
    NewEnds(before.Keys, incident, specs, ids, Key(e));
    forall f | f in edges && Key(f) == Key(e) ensures f.provenance == e.provenance {
      assert Key(f) == Key(e) && IsProposed(incident, specs, ids, f);
    }
    assert e in edges && Key(e) in Keys(edges);
    UpsertsAt(before, edges, Key(e), e.provenance);
  }

  /** Every declared or derived edge between the new jobs is still a row after the minimisation; so
      is the incident's; an edge to a queued job keeps its order unless the scopes are known to be
      disjoint; and the incident waits for exactly the entries the last one comes to. */
  lemma FiledChainStays(glob: Glob, scopes: map<JobId, PyValue>, project: set<JobId>, incident: JobId,
                        specs: seq<FixSpec>,
                        ids: seq<JobId>, before: Rows, after: Rows, chain: set<(JobId, JobId)>)
    requires IsFiling(before.Keys, incident, specs, ids) && IsChain(specs, ids, chain)
    requires IsFiled(glob, scopes, project, incident, specs, ids, before, after)
    ensures chain <= after.Keys && (incident, ids[|ids| - 1]) in after
    ensures forall i, x :: 0 <= i < |specs| && x in specs[i].dependsOnJobIds &&
                           !KnownDisjoint(glob, scopes, ids[i], x) ==>
              Reaches(after.Keys, ids[i], x)
    ensures forall i :: 0 <= i < |ids| ==>
              (Reaches(after.Keys, incident, ids[i]) <==> Leads(chain, ids[|ids| - 1], ids[i]))
  {
    hide IsReconciled, KnownDisjoint, Upserts, InChain;
    var last := ids[|ids| - 1];
    var edges :| (forall e :: e in edges <==> IsProposed(incident, specs, ids, e))
              && Acyclic(Upserts(before, edges).Keys) &&
                 IsReconciled(glob, scopes, project, Upserts(before, edges), after);
    var rows := Upserts(before, edges);
    PruningKeepsStandingOrder(glob, scopes, project, rows, after);
    forall k | k in chain || k == (incident, last) ensures k in after {
      FiledRows(before, incident, specs, ids, edges, Edge(k.0, k.1, "semantic"));
    }
    forall i, x | 0 <= i < |specs| && x in specs[i].dependsOnJobIds && !KnownDisjoint(glob, scopes, ids[i], x)
      ensures Reaches(after.Keys, ids[i], x)
    {
      assert InQueue(specs, ids, (ids[i], x));
      FiledRows(before, incident, specs, ids, edges, Edge(ids[i], x, "auto"));
      StandingRowIsOrdered(glob, scopes, project, rows, after, (ids[i], x));
    }
    UpsertsKeys(before, edges);
    KeysAreFiled(before.Keys, incident, specs, ids, edges);
    forall i | 0 <= i < |ids| ensures Reaches(after.Keys, incident, ids[i]) <==> Leads(chain, last, ids[i]) {
      IncidentWaitsFor(before.Keys, incident, specs, ids, chain, rows.Keys, i);
      IncidentRowLeads(chain, after.Keys, rows.Keys, incident, last, ids[i]);
    }
  }

  lemma IncidentRowLeads(chain: set<(JobId, JobId)>, after: set<(JobId, JobId)>, rows: set<(JobId, JobId)>,
                         incident: JobId, last: JobId, v: JobId)
    requires chain <= after <= rows && (incident, last) in after
    requires Reaches(rows, incident, v) <==> Leads(chain, last, v)
    ensures Reaches(after, incident, v) <==> Leads(chain, last, v)
  {
    if Reaches(after, incident, v) { ReachesMonotone(after, rows, incident, v); }
    EdgeReaches(after, incident, last);
    if Leads(chain, last, v) {
      LeadsMonotone(chain, after, last, v);
      LeadsOn(after, incident, last, v);
    }
  }

  /** The entries of a chain the analyst may propose, with the dependencies derived for them. */
  ghost predicate IsAnalystChain(glob: Glob, extract: string -> seq<string>, chain: PyValue, specs: seq<FixSpec>) {
    && ChainIsValid(chain) && |specs| == |chain.items|
    && forall i :: 0 <= i < |specs| ==> ChainDeps(glob, extract, chain.items, i, specs[i].dependsOnIndexes)
  }

  /** A chain the validator accepts always has entries, and its indices always fit. */
  lemma AnalystChainFits(glob: Glob, extract: string -> seq<string>, chain: PyValue, specs: seq<FixSpec>)
    requires IsAnalystChain(glob, extract, chain, specs)
    ensures 0 < |specs| <= MAX_CHAIN && IndicesFit(specs)
    ensures forall i, d :: 0 <= i < |specs| && d in specs[i].dependsOnIndexes ==> Place(d, i) == d
  {
    var deps := seq(|specs|, i requires 0 <= i < |specs| => specs[i].dependsOnIndexes);
    ChainPointsBackwards(glob, extract, chain, deps);
    forall i, d | 0 <= i < |specs| && d in specs[i].dependsOnIndexes ensures 0 <= d < i {
      assert d in deps[i];
    }
  }

  /** Once such a chain is filed and minimised, an entry still waits for everything it declares, and
      two entries whose ideas share a file are ordered: the later waits for the earlier. */
  lemma FiledEntriesAreOrdered(glob: Glob, extract: string -> seq<string>, chain: PyValue, scopes: map<JobId, PyValue>,
                               project: set<JobId>, incident: JobId, specs: seq<FixSpec>, ids: seq<JobId>, before: Rows,
                               after: Rows,
                               i: nat, j: nat)
    requires IsAnalystChain(glob, extract, chain, specs) && IsFiling(before.Keys, incident, specs, ids)
    requires IsFiled(glob, scopes, project, incident, specs, ids, before, after)
    requires j < |specs| && i < |specs|
    ensures PyInt(j) in Declared(chain.items[i]) ==> (ids[i], ids[j]) in after
    ensures j < i && SharesFile(glob, extract, chain.items[i], chain.items[j]) ==> (ids[i], ids[j]) in after
    ensures i != j && SharesFile(glob, extract, chain.items[i], chain.items[j]) ==>
              Reaches(after.Keys, ids[i], ids[j]) || Reaches(after.Keys, ids[j], ids[i])
  {
    hide IsFiled, AreFresh, CheckManifestConflict;
    FiledDependency(glob, extract, chain, scopes, project, incident, specs, ids, before, after, i, j);
    FiledDependency(glob, extract, chain, scopes, project, incident, specs, ids, before, after, j, i);
    var a, b := extract(IdeaOf(chain.items[i])), extract(IdeaOf(chain.items[j]));
    ConflictIsSymmetric(glob, a, b, b);
    if (ids[i], ids[j]) in after { EdgeReaches(after.Keys, ids[i], ids[j]); }
    if (ids[j], ids[i]) in after { EdgeReaches(after.Keys, ids[j], ids[i]); }
  }

  lemma FiledDependency(glob: Glob, extract: string -> seq<string>, chain: PyValue, scopes: map<JobId, PyValue>,
                        project: set<JobId>, incident: JobId, specs: seq<FixSpec>, ids: seq<JobId>, before: Rows,
                        after: Rows,
                        i: nat, j: nat)
    requires IsAnalystChain(glob, extract, chain, specs) && IsFiling(before.Keys, incident, specs, ids)
    requires IsFiled(glob, scopes, project, incident, specs, ids, before, after)
    requires i < |specs| && j < |specs|
    ensures PyInt(j) in Declared(chain.items[i]) ||
            (j < i && SharesFile(glob, extract, chain.items[i], chain.items[j])) ==>
              (ids[i], ids[j]) in after
  {
    hide IsFiled, AreFresh, CheckManifestConflict;
    AnalystChainFits(glob, extract, chain, specs);
    if j in specs[i].dependsOnIndexes {
      var edges := ChainOf(specs, ids);
      assert InChain(specs, ids, (ids[i], ids[Place(j, i)]));
      FiledChainStays(glob, scopes, project, incident, specs, ids, before, after, edges);
    }
  }

  ghost function ChainOf(specs: seq<FixSpec>, ids: seq<JobId>): (chain: set<(JobId, JobId)>)
    requires |ids| == |specs| && IndicesFit(specs)
    ensures IsChain(specs, ids, chain)
  {
    set i, d | 0 <= i < |specs| && d in specs[i].dependsOnIndexes :: (ids[i], ids[Place(d, i)])
  }

  /** A queued job that waits for the incident, and shares a file with the fix, is surveyed; then the
      fix cannot be filed: new job, queued job, incident, new job. */
  lemma QueuedDependentBlocksTheFix(after: set<(JobId, JobId)>)
    requires IsFiledGraph({(JobId(2), JobId(1))}, JobId(1), [FixSpec([], [JobId(2)])], [JobId(3)], after)
    ensures !Acyclic(after)
  {
    var g := {(JobId(2), JobId(1))};
    var specs, ids, chain := [FixSpec([], [JobId(2)])], [JobId(3)], ChainOf([FixSpec([], [JobId(2)])], [JobId(3)]);
    EdgeReaches(g, JobId(2), JobId(1));
    assert AwaitsQueued(specs, ids, chain, JobId(3), JobId(2)) by { assert JobId(2) in specs[0].dependsOnJobIds; }
    assert Leads(g, JobId(2), JobId(1));
    RefusedIffQueueWaits(g, JobId(1), specs, ids, chain, after);
  }

  /** When the last entry depends on no other, the incident waits for none of the others: it may be
      resumed before they land. */
  lemma IncidentSkipsTheOthers(glob: Glob, scopes: map<JobId, PyValue>, project: set<JobId>, incident: JobId,
                               specs: seq<FixSpec>,
                               ids: seq<JobId>, before: Rows, after: Rows, i: nat)
    requires IsFiling(before.Keys, incident, specs, ids)
    requires IsFiled(glob, scopes, project, incident, specs, ids, before, after)
    requires specs[|specs| - 1].dependsOnIndexes == [] && i < |ids| - 1
    ensures !Reaches(after.Keys, incident, ids[i])
  {
    hide IsFiled, InChain;
    var last := ids[|ids| - 1];
    var chain := ChainOf(specs, ids);
    FiledChainStays(glob, scopes, project, incident, specs, ids, before, after, chain);
    assert ids[i] != last;
    if Reaches(chain, last, ids[i]) {
      var w := FirstEdge(chain, last, ids[i]);
      ChainEdgeIsDeclared(before.Keys, incident, specs, ids, |ids| - 1, w);
    }
  }

  lemma ChainEdgeIsDeclared(g: set<(JobId, JobId)>, incident: JobId, specs: seq<FixSpec>, ids: seq<JobId>, i: nat,
                            w: JobId)
    requires IsFiling(g, incident, specs, ids) && i < |ids| && InChain(specs, ids, (ids[i], w))
    ensures specs[i].dependsOnIndexes != []
  {
    var j, d :| 0 <= j < |specs| && d in specs[j].dependsOnIndexes && (ids[i], w) == (ids[j], ids[Place(d, j)]);
    assert i == j;
  }
}
