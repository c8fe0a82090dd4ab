/** A plan split: the dependents of the cancelled parent move onto its terminal children
    (hyqs/pipeline/store.py, hyqs/pipeline/collision.py), and the generated dependencies are
    minimised again. */
module SplitRepointing {
  import opened PyValues
  import opened Sorting
  import opened Graphs
  import opened DependencyMinimizer
  import opened JobDependencies

  function Dependents(g: set<(JobId, JobId)>, parent: JobId): set<JobId> {
    set k | k in g && k.1 == parent :: k.0
  }

  /** No other child waits for it. */
  predicate IsTerminal(g: set<(JobId, JobId)>, children: seq<JobId>, c: JobId) {
    c in children && forall d :: d in children ==> (d, c) !in g
  }

  function TerminalChildren(g: set<(JobId, JobId)>, children: seq<JobId>): (r: seq<JobId>)
    ensures forall c :: c in r <==> IsTerminal(g, children, c)
  {
    TerminalUpTo(g, children, |children|)
  }

  function TerminalUpTo(g: set<(JobId, JobId)>, children: seq<JobId>, k: nat): (r: seq<JobId>)
    requires k <= |children|
    ensures forall c :: c in r <==> c in children[..k] && IsTerminal(g, children, c)
  {
    if k == 0 then []
    else
      var r := TerminalUpTo(g, children, k - 1);
      assert children[..k] == children[..k - 1] + [children[k - 1]];
      if IsTerminal(g, children, children[k - 1]) then r + [children[k - 1]] else r
  }

  // ---- repoint_dependency_provenance -------------------------------------------------

  /** Every dependent against every child, each keeping its provenance. */
  method RepointDependencyProvenance(edges: seq<(JobId, string)>, children: seq<JobId>) returns (fanOut: seq<Edge>)
    ensures StrictlySorted(EdgeLess, fanOut)
    ensures forall e :: e in fanOut <==> (e.job, e.provenance) in edges && e.dep in children
  {
    if children == [] {
      return [];
    }
    var all: seq<Edge> := [];
    for i := 0 to |edges|
      invariant forall e :: e in all <==> (e.job, e.provenance) in edges[..i] && e.dep in children
    {
      assert edges[..i + 1] == edges[..i] + [edges[i]];
      var row := RowOf(edges[i], children);
      all := all + row;
    }
    assert edges[..|edges|] == edges;
    EdgeLessIsStrictOrder();
    SortUniqueSorts(EdgeLess, all);
    fanOut := SortUnique(EdgeLess, all);
  }

  method RowOf(edge: (JobId, string), children: seq<JobId>) returns (row: seq<Edge>)
    ensures forall e :: e in row <==> (e.job, e.provenance) == edge && e.dep in children
  {
    row := [];
    for i := 0 to |children|
      invariant forall e :: e in row <==> (e.job, e.provenance) == edge && e.dep in children[..i]
    {
      assert children[..i + 1] == children[..i] + [children[i]];
      row := row + [Edge(edge.0, children[i], edge.1)];
    }
    assert children[..|children|] == children;
  }

  // ---- the new table --------------------------------------------------------------------

  /** What is left when nothing points at the parent any more. */
  function Kept(g: set<(JobId, JobId)>, parent: JobId): set<(JobId, JobId)> {
    set k | k in g && k.1 != parent
  }

  function Terminals(g: set<(JobId, JobId)>, children: seq<JobId>): set<JobId> {
    set t | t in TerminalChildren(g, children)
  }

  function FanOut(g: set<(JobId, JobId)>, parent: JobId, children: seq<JobId>): set<(JobId, JobId)> {
    Joined(Dependents(g, parent), Terminals(g, children))
  }

  function Repointed(g: set<(JobId, JobId)>, parent: JobId, children: seq<JobId>): set<(JobId, JobId)> {
    Kept(g, parent) + FanOut(g, parent, children)
  }

  function RowProvenance(rows: Rows, parent: JobId, children: seq<JobId>, k: (JobId, JobId)): string
    requires k in Repointed(rows.Keys, parent, children)
  {
    if k !in FanOut(rows.Keys, parent, children) then rows[k]
    else if k in Kept(rows.Keys, parent) then Stronger(rows[k], rows[(k.0, parent)])
    else rows[(k.0, parent)]
  }

  function RepointedRows(rows: Rows, parent: JobId, children: seq<JobId>): Rows {
    map k | k in Repointed(rows.Keys, parent, children) :: RowProvenance(rows, parent, children, k)
  }

  /** One transaction: a cycle, or a failing minimiser, leaves the table as it was. */
  method RepointSplitDependents(table: DependencyTable, glob: Glob, scopes: map<JobId, PyValue>, project: set<JobId>,
                                parent: JobId, children: seq<JobId>)
    returns (ok: bool, moved: set<JobId>)
    modifies table
    ensures moved == (if ok then Dependents(old(table.rows.Keys), parent) else {})
    ensures !ok ==> table.rows == old(table.rows)
    ensures Provenanced(old(table.rows)) ==>
              (ok <==> Dependents(old(table.rows.Keys), parent) == {} ||
                       Acyclic(Repointed(old(table.rows.Keys), parent, children)))
    ensures ok && moved == {} ==> table.rows == old(table.rows)
    ensures ok && moved != {} ==> IsReconciled(glob, scopes, project, RepointedRows(old(table.rows), parent, children),
                                               table.rows)
  {
    var saved := table.rows;
    var dependents := set k | k in saved && k.1 == parent :: k.0;
    if dependents == {} {
      return true, {};
    }
    var parentRows := ListOf(set k | k in saved && k.1 == parent :: (k.0, saved[k]));
    var terminal := TerminalChildren(saved.Keys, children);
    var fanOut := RepointDependencyProvenance(parentRows, terminal);
    FanOutIs(saved, parent, children, parentRows, fanOut);
    var kept: Rows := map k | k in saved && k.1 != parent :: saved[k];
    UpsertedIs(saved, parent, children, kept, fanOut);
    assert dependents == Dependents(saved.Keys, parent);
    var acyclic := TopologicalOrderExists(kept.Keys + Keys(fanOut));
    if !acyclic {
      return false, {};
    }
    table.rows := kept;
    table.AddDependencies(fanOut);
    RepointedIsProvenanced(saved, parent, children);
    assert table.rows.Keys == Repointed(saved.Keys, parent, children);
    var raised := table.Reconcile(glob, scopes, project);
    if raised {
      table.rows := saved;
      return false, {};
    }
    return true, dependents;
  }

  // ---- the method's table is the one described -------------------------------------------

  predicate IsFanOut(rows: Rows, parent: JobId, children: seq<JobId>, fanOut: seq<Edge>) {
    && StrictlySorted(EdgeLess, fanOut)
    && (forall e :: e in fanOut ==> Key(e) in FanOut(rows.Keys, parent, children) && (e.job, parent) in rows &&
                                    e.provenance == rows[(e.job, parent)])
    && forall k :: k in FanOut(rows.Keys, parent, children) ==> exists e :: e in fanOut && Key(e) == k
  }

  lemma FanOutHasRow(g: set<(JobId, JobId)>, parent: JobId, children: seq<JobId>, k: (JobId, JobId))
    ensures k in FanOut(g, parent, children) <==> (k.0, parent) in g && IsTerminal(g, children, k.1)
    ensures k in Kept(g, parent) <==> k in g && k.1 != parent
  {
    JoinedEnds(Dependents(g, parent), Terminals(g, children), k.0, k.1);
    if (k.0, parent) in g { assert k.0 in Dependents(g, parent) by { assert (k.0, parent).1 == parent; } }
  }

  lemma FanOutIs(rows: Rows, parent: JobId, children: seq<JobId>, parentRows: seq<(JobId, string)>, fanOut: seq<Edge>)
    requires forall x :: x in parentRows <==> x in set k | k in rows && k.1 == parent :: (k.0, rows[k])
    requires StrictlySorted(EdgeLess, fanOut)
    requires forall e :: e in fanOut <==>
               (e.job, e.provenance) in parentRows && e.dep in TerminalChildren(rows.Keys, children)
    ensures IsFanOut(rows, parent, children, fanOut)
  {
    hide FanOut;
    forall e | e in fanOut
      ensures Key(e) in FanOut(rows.Keys, parent, children) && (e.job, parent) in rows &&
              e.provenance == rows[(e.job, parent)]
    {
      assert (e.job, e.provenance) in parentRows;
      var k :| k in rows && k.1 == parent && (k.0, rows[k]) == (e.job, e.provenance);
      assert k == (e.job, parent);
      FanOutHasRow(rows.Keys, parent, children, Key(e));
    }
    forall k | k in FanOut(rows.Keys, parent, children) ensures exists e :: e in fanOut && Key(e) == k {
      FanOutHasRow(rows.Keys, parent, children, k);
      var e := Edge(k.0, k.1, rows[(k.0, parent)]);
      assert (e.job, e.provenance) in parentRows;
      assert e in fanOut;
    }
  }

  lemma FanOutKeysDiffer(rows: Rows, parent: JobId, children: seq<JobId>, fanOut: seq<Edge>)
    requires IsFanOut(rows, parent, children, fanOut)
    ensures forall i, j :: 0 <= i < j < |fanOut| ==> Key(fanOut[i]) != Key(fanOut[j])
    ensures Keys(fanOut) == FanOut(rows.Keys, parent, children)
  {
    hide FanOut;
    EdgeLessIsStrictOrder();
    forall i, j | 0 <= i < j < |fanOut| ensures Key(fanOut[i]) != Key(fanOut[j]) {
      assert fanOut[i] in fanOut && fanOut[j] in fanOut && EdgeLess(fanOut[i], fanOut[j]);
      assert !EdgeLess(fanOut[j], fanOut[j]);
    }
  }

  lemma UpsertedIs(rows: Rows, parent: JobId, children: seq<JobId>, kept: Rows, fanOut: seq<Edge>)
    requires IsFanOut(rows, parent, children, fanOut)
    requires kept == map k | k in rows && k.1 != parent :: rows[k]
    ensures Upserts(kept, fanOut) == RepointedRows(rows, parent, children)
    ensures kept.Keys + Keys(fanOut) == Repointed(rows.Keys, parent, children)
  {
    hide Stronger, FanOut, Upserts;
    var g := rows.Keys;
    assert kept.Keys == Kept(g, parent);
    FanOutKeysDiffer(rows, parent, children, fanOut);
    UpsertsKeys(kept, fanOut);
    forall k | k in Repointed(g, parent, children)
      ensures Upserts(kept, fanOut)[k] == RowProvenance(rows, parent, children, k)
    {
      UpsertsAt(kept, fanOut, k, if (k.0, parent) in rows then rows[(k.0, parent)] else "auto");
    }
  }

  lemma RepointedIsProvenanced(rows: Rows, parent: JobId, children: seq<JobId>)
    ensures Provenanced(rows) ==> Provenanced(RepointedRows(rows, parent, children))
  {
    hide FanOut, Kept;
    if Provenanced(rows) {
      forall k | k in RepointedRows(rows, parent, children)
        ensures KnownProvenance(RowProvenance(rows, parent, children, k))
      {
        FanOutHasRow(rows.Keys, parent, children, k);
      }
    }
  }

  // ---- what repointing does to the graph -----------------------------------------------------

  /** No terminal child is a dependent of the parent, or waits for one. */
  ghost predicate NoChildWaits(g: set<(JobId, JobId)>, parent: JobId, children: seq<JobId>) {
    forall d, t :: (d, parent) in g && IsTerminal(g, children, t) ==> !Leads(Kept(g, parent), t, d)
  }

  /** u comes to v across a moved edge. */
  ghost predicate LeadsAcrossMove(g: set<(JobId, JobId)>, parent: JobId, children: seq<JobId>, u: JobId, v: JobId) {
    exists d, t :: (d, parent) in g && IsTerminal(g, children, t) && Leads(Kept(g, parent), u, d) &&
                   Leads(Kept(g, parent), t, v)
  }

  lemma DependentsAre(g: set<(JobId, JobId)>, parent: JobId)
    ensures forall d :: d in Dependents(g, parent) <==> (d, parent) in g
  {
    forall d ensures d in Dependents(g, parent) <==> (d, parent) in g {
      if (d, parent) in g { assert (d, parent).1 == parent; }
    }
  }

  /** The move is refused exactly when a cycle is there anyway, or a terminal child is, or waits
      for, one of the parent's dependents. */
  lemma RefusedIffChildWaits(g: set<(JobId, JobId)>, parent: JobId, children: seq<JobId>)
    ensures Acyclic(Repointed(g, parent, children)) <==> Acyclic(Kept(g, parent)) && NoChildWaits(g, parent, children)
  {
    hide Joined, Dependents, Kept;
    DependentsAre(g, parent);
    JoinIsAcyclic(Kept(g, parent), Dependents(g, parent), Terminals(g, children));
  }

  /** Once accepted, two jobs are ordered exactly when they were ordered without going through
      the parent, or one leads to a dependent and a terminal child leads to the other. */
  lemma OrderAfterRepointing(g: set<(JobId, JobId)>, parent: JobId, children: seq<JobId>, u: JobId, v: JobId)
    requires Acyclic(Repointed(g, parent, children))
    ensures Reaches(Repointed(g, parent, children), u, v) <==>
            Reaches(Kept(g, parent), u, v) || LeadsAcrossMove(g, parent, children, u, v)
  {
    hide Joined, Dependents, Kept;
    DependentsAre(g, parent);
    OrderAfterJoin(Kept(g, parent), Dependents(g, parent), Terminals(g, children), u, v);
  }

  /** Jobs just created by the split: only children wait for children, and children wait for
      nothing else. */
  ghost predicate IsFresh(g: set<(JobId, JobId)>, parent: JobId, children: seq<JobId>) {
    && parent !in children
    && forall k :: k in g ==> (k.0 in children <==> k.1 in children)
  }

  lemma {:induction false} ChildrenStayAmongThemselves(g: set<(JobId, JobId)>, parent: JobId, children: seq<JobId>,
                                                       p: seq<JobId>, u: JobId, v: JobId)
    requires IsFresh(g, parent, children) && IsPath(g, p, u, v) && u in children
    ensures v in children
    decreases |p|
  {
    assert (p[|p| - 2], p[|p| - 2 + 1]) in g;
    if |p| > 2 {
      assert IsPath(g, p[..|p| - 1], u, p[|p| - 2]);
      ChildrenStayAmongThemselves(g, parent, children, p[..|p| - 1], u, p[|p| - 2]);
    }
  }

  /** A split is never refused: fresh children cannot close a cycle. */
  lemma FreshSplitIsAccepted(g: set<(JobId, JobId)>, parent: JobId, children: seq<JobId>)
    requires Acyclic(g) && IsFresh(g, parent, children)
    ensures Acyclic(Repointed(g, parent, children))
  {
    var kept := Kept(g, parent);
    assert kept <= g;
    SubgraphIsAcyclic(g, kept);
    forall d, t | (d, parent) in g && IsTerminal(g, children, t) ensures !Leads(kept, t, d) {
      assert d !in children;
      if Reaches(kept, t, d) {
        ReachesMonotone(kept, g, t, d);
        var p :| IsPath(g, p, t, d);
        ChildrenStayAmongThemselves(g, parent, children, p, t, d);
      }
    }
    RefusedIffChildWaits(g, parent, children);
  }

  /** Whoever waited for the parent waits for every child, through the terminal ones; `out` is any
      graph that kept its edges onto children and the edges among them. */
  lemma {:induction false} EveryChildIsReached(g: set<(JobId, JobId)>, parent: JobId, children: seq<JobId>,
                                               out: set<(JobId, JobId)>, d: JobId, c: JobId)
    requires Acyclic(g) && parent !in children
    requires forall k :: k in Repointed(g, parent, children) && k.0 != k.1 && (k.0 == d || k.0 in children) &&
                         k.1 in children ==>
               Reaches(out, k.0, k.1)
    requires Acyclic(Repointed(g, parent, children))
    requires (d, parent) in g && c in children
    ensures Reaches(out, d, c)
    decreases Above(g, c)
  {
    hide Repointed;
    if IsTerminal(g, children, c) {
      NewEdge(g, parent, children, (d, c));
    } else {
      var s :| s in children && (s, c) in g;
      AboveShrinks(g, s, c);
      EveryChildIsReached(g, parent, children, out, d, s);
      NewEdge(g, parent, children, (s, c));
      ReachesTransitive(out, d, s, c);
    }
  }

  lemma NewEdge(g: set<(JobId, JobId)>, parent: JobId, children: seq<JobId>, k: (JobId, JobId))
    requires Acyclic(Repointed(g, parent, children))
    requires ((k.0, parent) in g && IsTerminal(g, children, k.1)) || (k in g && k.1 != parent)
    ensures k in Repointed(g, parent, children) && k.0 != k.1
  {
    FanOutHasRow(g, parent, children, k);
    if k.0 == k.1 { EdgeReaches(Repointed(g, parent, children), k.0, k.1); }
  }

  // ---- through the minimisation that follows ---------------------------------------------------

  /** The rows a split creates between its children are the user's. */
  ghost predicate SiblingsAreProtected(rows: Rows, children: seq<JobId>) {
    forall k :: k in rows && k.0 in children && k.1 in children ==> rows[k] != "auto"
  }

  /** The state a split is made in. */
  ghost predicate IsSplit(before: Rows, parent: JobId, children: seq<JobId>) {
    && Provenanced(before) && Acyclic(before.Keys)
    && IsFresh(before.Keys, parent, children) && SiblingsAreProtected(before, children)
  }

  /** w waited for the parent, and its new row onto the terminal child t is not pruned. */
  predicate MoveStands(glob: Glob, scopes: map<JobId, PyValue>, project: set<JobId>, before: Rows,
                       parent: JobId, children: seq<JobId>, w: JobId, t: JobId)
  {
    (w, parent) in before && IsTerminal(before.Keys, children, t) &&
    Stands(glob, scopes, project, (w, t), before[(w, parent)])
  }

  /** Fresh rows carry the provenance they come from. */
  lemma RowsOfTheMove(before: Rows, parent: JobId, children: seq<JobId>, k: (JobId, JobId))
    requires IsSplit(before, parent, children)
    ensures var rows := RepointedRows(before, parent, children);
            && (k in rows <==> ((k.0, parent) in before && IsTerminal(before.Keys, children, k.1)) ||
                               (k in before && k.1 != parent))
            && (k in rows && k.0 !in children && k.1 in children ==>
                  (k.0, parent) in before && rows[k] == before[(k.0, parent)])
            && (k in rows && (k.0 in children || k.1 !in children) ==>
                  k in before && k.1 != parent && rows[k] == before[k])
  {
    hide FanOut, Kept;
    FanOutHasRow(before.Keys, parent, children, k);
    assert k in RepointedRows(before, parent, children) <==> k in Repointed(before.Keys, parent, children);
    if (k.0, parent) in before { assert k.0 !in children; }
  }

  /** The standing rows that the move leaves alone. */
  function Untouched(glob: Glob, scopes: map<JobId, PyValue>, project: set<JobId>, before: Rows,
                     parent: JobId): set<(JobId, JobId)>
  {
    Kept(Standing(glob, scopes, project, before), parent)
  }

  /** From outside, the standing rows lead into the children across one moved row. */
  lemma {:induction false} PathEntersOnce(glob: Glob, scopes: map<JobId, PyValue>, project: set<JobId>, before: Rows,
                                          parent: JobId, children: seq<JobId>, p: seq<JobId>, u: JobId, c: JobId)
    requires IsSplit(before, parent, children) && u !in children
    requires IsPath(Standing(glob, scopes, project, RepointedRows(before, parent, children)), p, u, c)
    ensures c !in children ==> Reaches(Untouched(glob, scopes, project, before, parent), u, c)
    ensures c in children ==> exists w, t :: MoveStands(glob, scopes, project, before, parent, children, w, t)
                                          && Leads(Untouched(glob, scopes, project, before, parent), u, w) &&
                                             Leads(before.Keys, t, c)
    decreases |p|
  {
    hide RepointedRows, Stands, IsFresh, IsTerminal;
    var standing := Untouched(glob, scopes, project, before, parent);
    var rows := RepointedRows(before, parent, children);
    var v := p[|p| - 2];
    assert (p[|p| - 2], p[|p| - 2 + 1]) in Standing(glob, scopes, project, rows);
    RowsOfTheMove(before, parent, children, (v, c));
    FreshEnds(before, parent, children, (v, c));
    if |p| > 2 {
      assert IsPath(Standing(glob, scopes, project, rows), p[..|p| - 1], u, v);
      PathEntersOnce(glob, scopes, project, before, parent, children, p[..|p| - 1], u, v);
    }
    if v in children {
      var w, t :| MoveStands(glob, scopes, project, before, parent, children, w, t) && Leads(standing, u, w) &&
                  Leads(before.Keys, t, v);
      EdgeReaches(before.Keys, v, c);
      LeadsOn(before.Keys, t, v, c);
    } else if c in children {
      assert MoveStands(glob, scopes, project, before, parent, children, v, c);
      assert Leads(standing, u, v) && Leads(before.Keys, c, c);
    } else {
      EdgeReaches(standing, v, c);
      LeadsOn(standing, u, v, c);
    }
  }

  lemma FreshEnds(before: Rows, parent: JobId, children: seq<JobId>, k: (JobId, JobId))
    requires IsSplit(before, parent, children)
    ensures k in before ==> (k.0 in children <==> k.1 in children)
    ensures (k.0, parent) in before ==> k.0 !in children
  {
  }

  lemma UntouchedStands(glob: Glob, scopes: map<JobId, PyValue>, project: set<JobId>, before: Rows, parent: JobId,
                        children: seq<JobId>)
    requires IsSplit(before, parent, children)
    ensures Untouched(glob, scopes, project, before, parent) <=
            Standing(glob, scopes, project, RepointedRows(before, parent, children))
    ensures forall k :: k in before && k.0 in children ==>
              k in Standing(glob, scopes, project, RepointedRows(before, parent, children))
    ensures forall w, t :: MoveStands(glob, scopes, project, before, parent, children, w, t) ==>
              (w, t) in Standing(glob, scopes, project, RepointedRows(before, parent, children))
  {
    hide RepointedRows, KnownDisjoint, IsTerminal;
    var rows := RepointedRows(before, parent, children);
    forall k | k in Untouched(glob, scopes, project, before, parent)
      ensures k in Standing(glob, scopes, project, rows)
    {
      RowsOfTheMove(before, parent, children, k);
      FreshEnds(before, parent, children, k);
    }
    forall k | k in before && k.0 in children ensures k in Standing(glob, scopes, project, rows) {
      RowsOfTheMove(before, parent, children, k);
      FreshEnds(before, parent, children, k);
    }
    forall w, t | MoveStands(glob, scopes, project, before, parent, children, w, t)
      ensures (w, t) in Standing(glob, scopes, project, rows)
    {
      RowsOfTheMove(before, parent, children, (w, t));
      FreshEnds(before, parent, children, (w, t));
      TerminalIsChild(before.Keys, children, t);
    }
  }

  lemma TerminalIsChild(g: set<(JobId, JobId)>, children: seq<JobId>, t: JobId)
    requires IsTerminal(g, children, t)
    ensures t in children
  {
  }

  lemma {:induction false} ChildPathStands(before: Rows, parent: JobId, children: seq<JobId>, out: set<(JobId, JobId)>,
                                           p: seq<JobId>, t: JobId, c: JobId)
    requires IsSplit(before, parent, children) && t in children && IsPath(before.Keys, p, t, c)
    requires forall k :: k in before && k.0 in children ==> k in out
    ensures Reaches(out, t, c)
    decreases |p|
  {
    var v := p[|p| - 2];
    assert (p[|p| - 2], p[|p| - 2 + 1]) in before.Keys;
    if |p| > 2 {
      assert IsPath(before.Keys, p[..|p| - 1], t, v);
      ChildrenStayAmongThemselves(before.Keys, parent, children, p[..|p| - 1], t, v);
      ChildPathStands(before, parent, children, out, p[..|p| - 1], t, v);
    }
    EdgeReaches(out, v, c);
    if |p| > 2 { ReachesTransitive(out, t, v, c); }
  }

  /** After a split, through the move and the minimisation after it, a job outside it waits for a
      child exactly when it comes, without the parent, to a dependent whose row onto some terminal
      child is not pruned, and that terminal child waits for the child. */
  lemma WaitsAfterSplit(glob: Glob, scopes: map<JobId, PyValue>, project: set<JobId>, before: Rows, after: Rows,
                        parent: JobId, children: seq<JobId>, u: JobId, c: JobId)
    requires IsSplit(before, parent, children) && u !in children && c in children
    requires IsReconciled(glob, scopes, project, RepointedRows(before, parent, children), after)
    ensures Reaches(after.Keys, u, c) <==>
            exists w, t :: MoveStands(glob, scopes, project, before, parent, children, w, t)
                        && Leads(Untouched(glob, scopes, project, before, parent), u, w) && Leads(before.Keys, t, c)
  {
    hide IsReconciled, RepointedRows, Standing, MoveStands, Untouched, IsSplit;
    var rows := RepointedRows(before, parent, children);
    var standing := Standing(glob, scopes, project, rows);
    PruningKeepsStandingOrder(glob, scopes, project, rows, after);
    if Reaches(after.Keys, u, c) {
      assert Reaches(standing, u, c);
      var p :| IsPath(standing, p, u, c);
      PathEntersOnce(glob, scopes, project, before, parent, children, p, u, c);
    }
    if exists w, t :: MoveStands(glob, scopes, project, before, parent, children, w, t)
                   && Leads(Untouched(glob, scopes, project, before, parent), u, w) && Leads(before.Keys, t, c) {
      var w, t :| MoveStands(glob, scopes, project, before, parent, children, w, t)
               && Leads(Untouched(glob, scopes, project, before, parent), u, w) && Leads(before.Keys, t, c);
      MoveCarries(glob, scopes, project, before, parent, children, u, c, w, t);
    }
  }

  lemma MoveCarries(glob: Glob, scopes: map<JobId, PyValue>, project: set<JobId>, before: Rows,
                    parent: JobId, children: seq<JobId>, u: JobId, c: JobId, w: JobId, t: JobId)
    requires IsSplit(before, parent, children)
    requires MoveStands(glob, scopes, project, before, parent, children, w, t)
    requires Leads(Untouched(glob, scopes, project, before, parent), u, w) && Leads(before.Keys, t, c)
    ensures Reaches(Standing(glob, scopes, project, RepointedRows(before, parent, children)), u, c)
  {
    hide RepointedRows, Standing, Stands, Untouched;
    var standing := Standing(glob, scopes, project, RepointedRows(before, parent, children));
    UntouchedStands(glob, scopes, project, before, parent, children);
    LeadsMonotone(Untouched(glob, scopes, project, before, parent), standing, u, w);
    EdgeReaches(standing, w, t);
    TerminalIsChild(before.Keys, children, t);
    if t != c {
      var p :| IsPath(before.Keys, p, t, c);
      ChildPathStands(before, parent, children, standing, p, t, c);
    }
    LeadsOn(standing, u, w, t);
    LeadsOn(standing, u, t, c);
  }

  /** A dependent whose row was the user's or semantic waits for every child; any dependent waits
      for every terminal child its scope is not known to miss; nothing waits for the parent. */
  lemma SplitSkipsNoChild(glob: Glob, scopes: map<JobId, PyValue>, project: set<JobId>, before: Rows, after: Rows,
                          parent: JobId, children: seq<JobId>, d: JobId, c: JobId)
    requires IsSplit(before, parent, children)
    requires IsReconciled(glob, scopes, project, RepointedRows(before, parent, children), after)
    requires (d, parent) in before && c in children
    ensures before[(d, parent)] != "auto" ==> Reaches(after.Keys, d, c)
    ensures IsTerminal(before.Keys, children, c) && !KnownDisjoint(glob, scopes, d, c) ==> Reaches(after.Keys, d, c)
    ensures forall k :: k in after ==> k.1 != parent
  {
    hide IsReconciled, RepointedRows, KnownDisjoint, Reaches, FanOut, Kept;
    var g := before.Keys;
    var rows := RepointedRows(before, parent, children);
    PruningKeepsStandingOrder(glob, scopes, project, rows, after);
    forall k | k in after ensures k.1 != parent {
      RowsOfTheMove(before, parent, children, k);
    }
    if before[(d, parent)] != "auto" {
      FreshSplitIsAccepted(g, parent, children);
      forall k | k in Repointed(g, parent, children) && k.0 != k.1 && (k.0 == d || k.0 in children) && k.1 in children
        ensures Reaches(after.Keys, k.0, k.1)
      {
        MovedRowIsOrdered(glob, scopes, project, before, after, parent, children, k);
      }
      EveryChildIsReached(g, parent, children, after.Keys, d, c);
    } else if IsTerminal(g, children, c) && !KnownDisjoint(glob, scopes, d, c) {
      FanOutHasRow(g, parent, children, (d, c));
      MovedRowIsOrdered(glob, scopes, project, before, after, parent, children, (d, c));
    }
  }

  lemma MovedRowIsOrdered(glob: Glob, scopes: map<JobId, PyValue>, project: set<JobId>, before: Rows, after: Rows,
                          parent: JobId, children: seq<JobId>, k: (JobId, JobId))
    requires IsSplit(before, parent, children)
    requires IsReconciled(glob, scopes, project, RepointedRows(before, parent, children), after)
    requires k in Repointed(before.Keys, parent, children) && k.1 in children
    requires k.0 in children || ((k.0, parent) in before &&
                                 (before[(k.0, parent)] != "auto" || !KnownDisjoint(glob, scopes, k.0, k.1)))
    ensures Reaches(after.Keys, k.0, k.1)
  {
    hide IsReconciled, KnownDisjoint, Repointed, RowProvenance;
    var rows := RepointedRows(before, parent, children);
    assert k in rows;
    RowsOfTheMove(before, parent, children, k);
    StandingRowIsOrdered(glob, scopes, project, rows, after, k);
  }

  /** The hazard left: the dependent shares a file with a child that is not terminal, the terminal
      child is disjoint from it, and the dependent ends up waiting for neither. */
  lemma SplitReleasesOverlap(glob: Glob, before: Rows, after: Rows)
    requires !glob("a.py", "b.py") && !glob("b.py", "a.py")
    requires before == map[(JobId(2), JobId(1)) := "auto", (JobId(4), JobId(3)) := "user"]
    requires IsReconciled(glob, ReleasedScopes(), {JobId(1), JobId(2), JobId(3), JobId(4)},
                          RepointedRows(before, JobId(1), [JobId(3), JobId(4)]), after)
    ensures IsSplit(before, JobId(1), [JobId(3), JobId(4)])
    ensures CheckManifestConflict(glob, ScopeOf(ReleasedScopes(), JobId(2)).paths,
                                  ScopeOf(ReleasedScopes(), JobId(3)).paths)
    ensures !Reaches(after.Keys, JobId(2), JobId(3)) && !Reaches(after.Keys, JobId(2), JobId(4))
    ensures !Reaches(after.Keys, JobId(3), JobId(2))
  {
    var parent, children := JobId(1), [JobId(3), JobId(4)];
    var project := {JobId(1), JobId(2), JobId(3), JobId(4)};
    hide ReleasedScopes, RepointedRows, IsReconciled, MoveStands, IsSplit, Untouched, ScopeOf, CheckManifestConflict;
    ReleasedScopesAre(glob);
    ReleasedIsSplit(before);
    forall c | c in children ensures !Reaches(after.Keys, JobId(2), c) {
      WaitsAfterSplit(glob, ReleasedScopes(), project, before, after, parent, children, JobId(2), c);
      forall w, t ensures !MoveStands(glob, ReleasedScopes(), project, before, parent, children, w, t) {
        ReleasedRow(glob, before, w, t);
      }
    }
    assert JobId(3) in children && JobId(4) in children;
    if Reaches(after.Keys, JobId(3), JobId(2)) {
      ChildRowsAreOld(glob, ReleasedScopes(), project, before, after, parent, children, JobId(3), JobId(2));
    }
  }

  /** A child leads on only by a row it had. */
  lemma ChildRowsAreOld(glob: Glob, scopes: map<JobId, PyValue>, project: set<JobId>, before: Rows, after: Rows,
                        parent: JobId, children: seq<JobId>, c: JobId, v: JobId)
    requires IsSplit(before, parent, children) && c in children
    requires IsReconciled(glob, scopes, project, RepointedRows(before, parent, children), after)
    requires Reaches(after.Keys, c, v)
    ensures exists k :: k in before && k.0 == c
  {
    hide RepointedRows, IsReconciled, IsSplit;
    var w := FirstEdge(after.Keys, c, v);
    PruningKeepsStandingOrder(glob, scopes, project, RepointedRows(before, parent, children), after);
    RowsOfTheMove(before, parent, children, (c, w));
    assert (c, w) in before;
  }

  function ReleasedScopes(): map<JobId, PyValue> {
    map[JobId(2) := Manifest(["a.py"]), JobId(3) := Manifest(["a.py"]), JobId(4) := Manifest(["b.py"])]
  }

  lemma ReleasedScopesAre(glob: Glob)
    ensures forall n :: 2 <= n <= 4 ==> ScopeOf(ReleasedScopes(), JobId(n)).known
    ensures forall p :: p in ScopeOf(ReleasedScopes(), JobId(2)).paths <==> p == "a.py"
    ensures forall p :: p in ScopeOf(ReleasedScopes(), JobId(3)).paths <==> p == "a.py"
    ensures forall p :: p in ScopeOf(ReleasedScopes(), JobId(4)).paths <==> p == "b.py"
    ensures CheckManifestConflict(glob, ScopeOf(ReleasedScopes(), JobId(2)).paths,
                                  ScopeOf(ReleasedScopes(), JobId(3)).paths)
    ensures !glob("a.py", "b.py") && !glob("b.py", "a.py") ==>
              KnownDisjoint(glob, ReleasedScopes(), JobId(2), JobId(4))
  {
    hide ClassifyDependencyScope, Manifest;
    ClassifyManifest(["a.py"]);
    assert "a.py" in ["a.py"];
    assert "a.py" in ScopeOf(ReleasedScopes(), JobId(2)).paths && "a.py" in ScopeOf(ReleasedScopes(), JobId(3)).paths;
    ClassifyManifest(["b.py"]);
  }

  lemma ReleasedIsSplit(before: Rows)
    requires before == map[(JobId(2), JobId(1)) := "auto", (JobId(4), JobId(3)) := "user"]
    ensures IsSplit(before, JobId(1), [JobId(3), JobId(4)])
  {
    RankedIsAcyclic(before.Keys, map[JobId(1) := 0, JobId(2) := 1, JobId(3) := 0, JobId(4) := 1]);
  }

  lemma ReleasedRow(glob: Glob, before: Rows, w: JobId, t: JobId)
    requires !glob("a.py", "b.py") && !glob("b.py", "a.py")
    requires before == map[(JobId(2), JobId(1)) := "auto", (JobId(4), JobId(3)) := "user"]
    ensures !MoveStands(glob, ReleasedScopes(), {JobId(1), JobId(2), JobId(3), JobId(4)}, before, JobId(1),
                        [JobId(3), JobId(4)], w, t)
  {
    ReleasedScopesAre(glob);
    hide KnownDisjoint, ReleasedScopes;
    if (w, JobId(1)) in before && IsTerminal(before.Keys, [JobId(3), JobId(4)], t) {
      assert JobId(4) in [JobId(3), JobId(4)];
      assert w == JobId(2) && t == JobId(4);
    }
  }
}
