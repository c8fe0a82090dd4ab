/** Any sequence of amendment cycles on one job: `_apply_authorized_scope_amendment`
    (hyqs/pipeline/runner.py) and `append_scope_amendment` (hyqs/pipeline/store.py). */
module ScopeCycles {
  import opened PyValues
  import opened ScopeAmendment
  import opened ScopeLimits

  /** One entry of the audit ledger; the counts stored with it are the lengths. */
  datatype Entry = Entry(sequence: int, gate: string, eventId: string, accepted: seq<Accepted>, rejected: seq<Rejected>,
                         newlyAccepted: seq<string>, cumulative: seq<string>, allowed: seq<string>)

  /** `scope.allowed_paths`, `scope_amendments.cumulative_paths`, `.sequence` and `.ledger`. */
  datatype Ledger = Ledger(allowed: seq<string>, cumulative: seq<string>, sequence: int, entries: seq<Entry>)

  predicate Recorded(entries: seq<Entry>, eventId: string) {
    exists e :: e in entries && e.eventId == eventId
  }

  datatype Status = Applied | Idempotent | Stale | OverLimit

  datatype Persistence = Persistence(status: Status, newlyAccepted: seq<string>)

  /** The accepted paths that are not allowed yet, once each, in order. */
  function NewlyAccepted(allowed: seq<string>, accepted: seq<Accepted>): seq<string> {
    Dedup(PathsNotIn(allowed, accepted))
  }

  function PathsNotIn(allowed: seq<string>, accepted: seq<Accepted>): (r: seq<string>)
    ensures |r| <= |accepted|
    ensures forall p :: p in r ==> p !in allowed && exists a :: a in accepted && a.path == p
  {
    if accepted == [] then []
    else
      var rest := PathsNotIn(allowed, accepted[1..]);
      assert accepted == [accepted[0]] + accepted[1..];
      if accepted[0].path in allowed then rest else [accepted[0].path] + rest
  }

  lemma NewlyAcceptedAreAccepted(allowed: seq<string>, accepted: seq<Accepted>)
    ensures forall p :: p in NewlyAccepted(allowed, accepted) ==> Has(accepted, p)
  {
  }

  function Without(s: seq<string>, present: seq<string>): (r: seq<string>)
    ensures forall p :: p in r <==> p in s && p !in present
    ensures (forall i, j :: 0 <= i < j < |s| ==> s[i] != s[j]) ==> forall i, j :: 0 <= i < j < |r| ==> r[i] != r[j]
    ensures |r| <= |s| && ((forall p :: p in s ==> p !in present) ==> r == s)
  {
    if s == [] then []
    else
      var init := Without(s[..|s| - 1], present);
      assert s == s[..|s| - 1] + [s[|s| - 1]];
      if s[|s| - 1] in present then init else init + [s[|s| - 1]]
  }

  predicate Has(accepted: seq<Accepted>, path: string) { exists a :: a in accepted && a.path == path }

  /** For each of the new paths, the last item accepted for it. */
  function ItemsFor(accepted: seq<Accepted>, paths: seq<string>): (r: seq<Accepted>)
    requires forall p :: p in paths ==> Has(accepted, p)
    ensures |r| == |paths| && forall i :: 0 <= i < |r| ==> r[i].path == paths[i] && r[i] in accepted
  {
    if paths == [] then []
    else
      assert paths[0] in paths && forall p :: p in paths[1..] ==> p in paths;
      [LastFor(accepted, paths[0])] + ItemsFor(accepted, paths[1..])
  }

  function LastFor(accepted: seq<Accepted>, path: string): (r: Accepted)
    requires Has(accepted, path)
    ensures r in accepted && r.path == path
  {
    var n := |accepted| - 1;
    assert accepted == accepted[..n] + [accepted[n]];
    if accepted[n].path == path then accepted[n] else LastFor(accepted[..n], path)
  }

  class ScopeRecord {
    var allowed: seq<string>
    var cumulative: seq<string>
    var sequence: int
    var entries: seq<Entry>

    ghost function State(): Ledger
      reads this
    {
      Ledger(allowed, cumulative, sequence, entries)
    }

    constructor (allowed: seq<string>)
      ensures State() == Ledger(Dedup(allowed), [], 0, [])
    {
      this.allowed := Dedup(allowed);
      cumulative, sequence, entries := [], 0, [];
    }

    /** The transaction: an event already recorded is idempotent, a stale sequence or an
        exceeded cumulative limit is refused, anything else is appended. */
    method Append(d: Decision, gate: string, eventId: string, expectedSequence: int, cumulativeLimit: int)
      returns (r: Persistence)
      modifies this
      ensures (State(), r) == Appended(old(State()), d, gate, eventId, expectedSequence, cumulativeLimit)
    {
      hide Recorded, NewlyAccepted, Without, ItemsFor, Has;
      if Recorded(entries, eventId) {
        return Persistence(Idempotent, []);
      }
      if sequence != expectedSequence {
        return Persistence(Stale, []);
      }
      var newly := NewlyAccepted(allowed, d.accepted);
      if newly == [] && d.rejected == [] {
        return Persistence(Idempotent, []);
      }
      var nextCumulative := cumulative + Without(newly, cumulative);
      if |nextCumulative| > cumulativeLimit {
        return Persistence(OverLimit, []);
      }
      NewlyAcceptedAreAccepted(allowed, d.accepted);
      entries := entries + [Entry(sequence + 1, gate, eventId, ItemsFor(d.accepted, newly), d.rejected, newly,
                                  nextCumulative, allowed + newly)];
      sequence := sequence + 1;
      allowed := allowed + newly;
      cumulative := nextCumulative;
      r := Persistence(Applied, newly);
    }
  }

  function Appended(l: Ledger, d: Decision, gate: string, eventId: string, expectedSequence: int,
                    cumulativeLimit: int): (Ledger, Persistence)
  {
    var newly := NewlyAccepted(l.allowed, d.accepted);
    var next := l.cumulative + Without(newly, l.cumulative);
    if Recorded(l.entries, eventId) then (l, Persistence(Idempotent, []))
    else if l.sequence != expectedSequence then (l, Persistence(Stale, []))
    else if newly == [] && d.rejected == [] then (l, Persistence(Idempotent, []))
    else if |next| > cumulativeLimit then (l, Persistence(OverLimit, []))
    else
      NewlyAcceptedAreAccepted(l.allowed, d.accepted);
      var entry := Entry(l.sequence + 1, gate, eventId, ItemsFor(d.accepted, newly), d.rejected, newly, next,
                         l.allowed + newly);
      (Ledger(l.allowed + newly, next, l.sequence + 1, l.entries + [entry]), Persistence(Applied, newly))
  }

  // ---- one cycle of the runner ----------------------------------------------------------

  /** What a cycle brings along: the persisted gate failure it points at, if any, how many recorded
      events match it, and the state of the worktree and of the other jobs; `diff` is there when
      the worktree is and its last commit can be read. */
  datatype Cycle = Cycle(
    pointed: bool, gate: string, checkId: string, eventId: string, matches: nat, failingPaths: seq<string>,
    operatorPaths: seq<string>, plan: seq<string>, tracked: seq<string>, diff: Option<seq<string>>,
    evidence: seq<(string, seq<string>)>,
    relations: seq<Relation>, active: seq<seq<string>>)

  predicate IdentityIsValid(policy: Policy, c: Cycle) {
    && AuthorizedGate(c.gate) && c.checkId != "" && c.eventId != "" && c.matches == 1 && c.failingPaths != []
    && forall p :: p in c.failingPaths ==> policy.norm(p).Some?
  }

  /** The failing paths are allowed already: nothing to evaluate. */
  predicate AlreadyAuthorized(policy: Policy, seen: Ledger, c: Cycle) {
    Normalized(policy, c.failingPaths) <= Normalized(policy, seen.allowed + seen.cumulative)
  }

  /** The request the runner evaluates, from the job as it was loaded. */
  function RequestOf(seen: Ledger, c: Cycle): Request
    requires c.diff.Some?
  {
    Request(GateEvent(c.gate, true, true, true, "failed", c.failingPaths, c.operatorPaths),
            c.plan, seen.allowed, c.tracked, c.diff.value, c.evidence, c.relations, seen.cumulative, c.active)
  }

  function CycleDecision(policy: Policy, seen: Ledger, c: Cycle): Decision
    requires c.diff.Some?
  {
    RunnerDecision(Decide(policy, RequestOf(seen, c), PER_CYCLE_LIMIT, CUMULATIVE_LIMIT))
  }

  /** The cycle gets as far as the policy. */
  predicate IsEvaluated(policy: Policy, seen: Ledger, c: Cycle) {
    c.pointed && IdentityIsValid(policy, c) && !AlreadyAuthorized(policy, seen, c) && c.diff.Some?
  }

  /** `seen` is the job as loaded, `l` the row at the time of the transaction. */
  function AfterCycle(policy: Policy, seen: Ledger, l: Ledger, c: Cycle): Ledger {
    if !IsEvaluated(policy, seen, c) then l
    else Appended(l, CycleDecision(policy, seen, c), c.gate, c.eventId, seen.sequence, CUMULATIVE_LIMIT).0
  }

  /** The job goes on to its handler: nothing points at a gate failure, its paths are authorised
      already, or the transaction found nothing to add or added something. */
  predicate Continues(policy: Policy, seen: Ledger, l: Ledger, c: Cycle) {
    if !c.pointed then true
    else if !IdentityIsValid(policy, c) then false
    else if AlreadyAuthorized(policy, seen, c) then true
    else if c.diff.None? then false
    else
      var r := Appended(l, CycleDecision(policy, seen, c), c.gate, c.eventId, seen.sequence, CUMULATIVE_LIMIT).1;
      r.status == Idempotent || (r.status == Applied && r.newlyAccepted != [])
  }

  method ApplyAuthorizedScopeAmendment(policy: Policy, record: ScopeRecord, seen: Ledger, c: Cycle)
    returns (canContinue: bool)
    modifies record
    ensures record.State() == AfterCycle(policy, seen, old(record.State()), c)
    ensures |record.allowed| > |old(record.allowed)| ==> canContinue
    ensures canContinue == Continues(policy, seen, old(record.State()), c)
  {
    if !c.pointed {
      return true;
    }
    if !IdentityIsValid(policy, c) {
      return false;
    }
    if AlreadyAuthorized(policy, seen, c) {
      return true;
    }
    if c.diff.None? {
      return false;
    }
    var decision := EvaluateScopeAmendment(policy, RequestOf(seen, c), PER_CYCLE_LIMIT, CUMULATIVE_LIMIT);
    var persistence := record.Append(RunnerDecision(decision.value), c.gate, c.eventId, seen.sequence,
                                     CUMULATIVE_LIMIT);
    canContinue := persistence.status == Idempotent ||
                   (persistence.status == Applied && persistence.newlyAccepted != []);
  }

  // ---- any sequence of cycles -----------------------------------------------------------

  predicate Distinct(s: seq<string>) { forall i, j :: 0 <= i < j < |s| ==> s[i] != s[j] }

  ghost predicate Consistent(l: Ledger) {
    && Distinct(l.cumulative) && |l.cumulative| <= CUMULATIVE_LIMIT
    && forall p :: p in l.cumulative ==> p in l.allowed
  }

  /** The row is only ever widened by cycles, and a job loaded at the row's current sequence
      was loaded as it still is: earlier ones may be stale. */
  ghost predicate IsHistory(policy: Policy, ledgers: seq<Ledger>, seen: seq<Ledger>, cycles: seq<Cycle>) {
    && |ledgers| == |cycles| + 1 && |seen| == |cycles|
    && ledgers[0].cumulative == [] && ledgers[0].sequence == 0
    && forall i: nat :: i < |cycles| ==> IsCycle(policy, ledgers, seen, cycles, i)
  }

  ghost predicate IsCycle(policy: Policy, ledgers: seq<Ledger>, seen: seq<Ledger>, cycles: seq<Cycle>, i: nat)
    requires |ledgers| == |cycles| + 1 && |seen| == |cycles| && i < |cycles|
  {
    && (seen[i].sequence == ledgers[i].sequence ==> seen[i] == ledgers[i])
    && ledgers[i + 1] == AfterCycle(policy, seen[i], ledgers[i], cycles[i])
  }

  /** What one cycle can do to a consistent ledger: keep it, or append distinct new paths, at most
      the per-cycle limit of them, each justified by the evaluated request. */
  lemma CycleIsBounded(policy: Policy, seen: Ledger, l: Ledger, c: Cycle)
    requires Consistent(l) && (seen.sequence == l.sequence ==> seen == l)
    ensures var n := AfterCycle(policy, seen, l, c);
            && Consistent(n)
            && |n.cumulative| <= |l.cumulative| + PER_CYCLE_LIMIT
            && l.cumulative <= n.cumulative && l.allowed <= n.allowed
            && (n != l ==> IsEvaluated(policy, seen, c) && seen == l)
            && (forall p :: p in n.allowed && p !in l.allowed ==>
                  p in n.cumulative && p !in l.cumulative && c.diff.Some? && Justified(policy, RequestOf(l, c), p))
            && |n.cumulative| - |l.cumulative| == |n.allowed| - |l.allowed|
  {
    var n := AfterCycle(policy, seen, l, c);
    if n != l {
      assert seen == l;
      var req := RequestOf(l, c);
      DecisionIsBoundedAndJustified(policy, req, PER_CYCLE_LIMIT, CUMULATIVE_LIMIT);
      var d := CycleDecision(policy, l, c);
      AppendIsBounded(l, d, c.gate, c.eventId, CUMULATIVE_LIMIT);
      forall p | p in n.allowed && p !in l.allowed ensures Justified(policy, req, p) {
        var a :| a in d.accepted && a.path == p;
        assert a in Decide(policy, req, PER_CYCLE_LIMIT, CUMULATIVE_LIMIT).accepted;
      }
    }
  }

  lemma AppendIsBounded(l: Ledger, d: Decision, gate: string, eventId: string, limit: nat)
    requires Distinct(l.cumulative) && forall p :: p in l.cumulative ==> p in l.allowed
    ensures var n := Appended(l, d, gate, eventId, l.sequence, limit).0;
            && Distinct(n.cumulative) && (forall p :: p in n.cumulative ==> p in n.allowed)
            && (n != l ==> |n.cumulative| <= limit)
            && |n.cumulative| <= |l.cumulative| + |d.accepted|
            && l.cumulative <= n.cumulative && l.allowed <= n.allowed
            && |n.cumulative| - |l.cumulative| == |n.allowed| - |l.allowed|
            && (forall p :: p in n.allowed && p !in l.allowed ==>
                  p in n.cumulative && p !in l.cumulative && exists a :: a in d.accepted && a.path == p)
  {
    var newly := NewlyAccepted(l.allowed, d.accepted);
    NewlyAcceptedIsNew(l, d.accepted);
    DistinctAppend(l.cumulative, newly);
    assert Without(newly, l.cumulative) == newly;
  }

  lemma NewlyAcceptedIsNew(l: Ledger, accepted: seq<Accepted>)
    requires forall p :: p in l.cumulative ==> p in l.allowed
    ensures var newly := NewlyAccepted(l.allowed, accepted);
            && Distinct(newly) && |newly| <= |accepted|
            && (forall p :: p in newly ==>
                  p !in l.allowed && p !in l.cumulative && exists a :: a in accepted && a.path == p)
  {
    var paths := PathsNotIn(l.allowed, accepted);
    assert forall p :: p in Dedup(paths) ==> p in paths;
  }

  lemma DistinctAppend(s: seq<string>, t: seq<string>)
    requires Distinct(s) && Distinct(t) && forall p :: p in t ==> p !in s
    ensures Distinct(s + t)
  {
    forall i, j | 0 <= i < j < |s + t| ensures (s + t)[i] != (s + t)[j] {
      if i < |s| <= j {
        assert (s + t)[i] in s && (s + t)[j] in t;
      }
    }
  }

  lemma {:induction false} LedgersStayConsistent(policy: Policy, ledgers: seq<Ledger>, seen: seq<Ledger>,
                                                 cycles: seq<Cycle>, k: nat)
    requires IsHistory(policy, ledgers, seen, cycles) && k <= |cycles|
    ensures Consistent(ledgers[k]) && ledgers[0].allowed <= ledgers[k].allowed
    ensures |ledgers[k].allowed| == |ledgers[0].allowed| + |ledgers[k].cumulative|
  {
    hide AfterCycle, Justified, RequestOf, IsEvaluated;
    if k > 0 {
      LedgersStayConsistent(policy, ledgers, seen, cycles, k - 1);
      assert IsCycle(policy, ledgers, seen, cycles, k - 1);
      CycleIsBounded(policy, seen[k - 1], ledgers[k - 1], cycles[k - 1]);
      PrefixesChain(ledgers[0].allowed, ledgers[k - 1].allowed, ledgers[k].allowed);
    }
  }

  lemma PrefixesChain<T>(a: seq<T>, b: seq<T>, c: seq<T>)
    requires a <= b <= c
    ensures a <= c
  {
  }

  ghost predicate Productive(ledgers: seq<Ledger>, i: nat)
    requires i + 1 < |ledgers|
  {
    ledgers[i + 1].allowed != ledgers[i].allowed
  }

  ghost function ProductiveCycles(ledgers: seq<Ledger>, k: nat): nat
    requires k < |ledgers|
  {
    if k == 0 then 0 else ProductiveCycles(ledgers, k - 1) + (if Productive(ledgers, k - 1) then 1 else 0)
  }

  lemma ProductiveCycleGrows(policy: Policy, ledgers: seq<Ledger>, seen: seq<Ledger>, cycles: seq<Cycle>, i: nat)
    requires IsHistory(policy, ledgers, seen, cycles) && i < |cycles|
    ensures |ledgers[i].cumulative| + (if Productive(ledgers, i) then 1 else 0) <= |ledgers[i + 1].cumulative|
  {
    hide AfterCycle, Justified, RequestOf, IsEvaluated;
    LedgersStayConsistent(policy, ledgers, seen, cycles, i);
    assert IsCycle(policy, ledgers, seen, cycles, i);
    CycleIsBounded(policy, seen[i], ledgers[i], cycles[i]);
    if Productive(ledgers, i) { GrownIsLonger(ledgers[i].allowed, ledgers[i + 1].allowed); }
  }

  lemma GrownIsLonger<T>(s: seq<T>, t: seq<T>)
    requires s <= t && s != t
    ensures |s| < |t|
  {
  }

  lemma {:induction false} ProductiveCyclesGrow(policy: Policy, ledgers: seq<Ledger>, seen: seq<Ledger>,
                                                cycles: seq<Cycle>, k: nat)
    requires IsHistory(policy, ledgers, seen, cycles) && k <= |cycles|
    ensures ProductiveCycles(ledgers, k) <= |ledgers[k].cumulative|
  {
    if k > 0 {
      ProductiveCyclesGrow(policy, ledgers, seen, cycles, k - 1);
      ProductiveCycleGrows(policy, ledgers, seen, cycles, k - 1);
    }
  }

  /** Over any sequence of cycles, stale workers included: the amendments never exceed the
      cumulative limit, grow by at most the per-cycle limit at a time, at most 24 cycles widen
      anything, and every path of the manifest beyond the original ones was justified by the
      request of the cycle that added it. */
  lemma AmendmentsAreBounded(policy: Policy, ledgers: seq<Ledger>, seen: seq<Ledger>, cycles: seq<Cycle>)
    requires IsHistory(policy, ledgers, seen, cycles)
    ensures var last := ledgers[|cycles|];
            && |last.cumulative| <= CUMULATIVE_LIMIT
            && |last.allowed| <= |ledgers[0].allowed| + CUMULATIVE_LIMIT
            && ProductiveCycles(ledgers, |cycles|) <= CUMULATIVE_LIMIT
    ensures forall i: nat :: i < |cycles| ==> |ledgers[i + 1].cumulative| <= |ledgers[i].cumulative| + PER_CYCLE_LIMIT
    ensures forall p :: p in ledgers[|cycles|].allowed && p !in ledgers[0].allowed ==>
              exists i: nat :: i < |cycles| && AddedIn(policy, ledgers, cycles, i, p)
  {
    LedgersStayConsistent(policy, ledgers, seen, cycles, |cycles|);
    ProductiveCyclesGrow(policy, ledgers, seen, cycles, |cycles|);
    forall i: nat | i < |cycles| ensures |ledgers[i + 1].cumulative| <= |ledgers[i].cumulative| + PER_CYCLE_LIMIT {
      LedgersStayConsistent(policy, ledgers, seen, cycles, i);
      assert IsCycle(policy, ledgers, seen, cycles, i);
      CycleIsBounded(policy, seen[i], ledgers[i], cycles[i]);
    }
    forall p | p in ledgers[|cycles|].allowed && p !in ledgers[0].allowed
      ensures exists i: nat :: i < |cycles| && AddedIn(policy, ledgers, cycles, i, p)
    {
      var i := CycleThatAdded(policy, ledgers, seen, cycles, |cycles|, p);
    }
  }

  ghost predicate AddedIn(policy: Policy, ledgers: seq<Ledger>, cycles: seq<Cycle>, i: nat, p: string)
    requires i < |cycles| && |ledgers| == |cycles| + 1
  {
    && p !in ledgers[i].allowed && p in ledgers[i + 1].allowed
    && cycles[i].pointed && IdentityIsValid(policy, cycles[i]) && cycles[i].diff.Some?
    && Justified(policy, RequestOf(ledgers[i], cycles[i]), p)
  }

  lemma {:induction false} CycleThatAdded(policy: Policy, ledgers: seq<Ledger>, seen: seq<Ledger>, cycles: seq<Cycle>,
                                          k: nat, p: string)
    returns (i: nat)
    requires IsHistory(policy, ledgers, seen, cycles) && k <= |cycles|
    requires p in ledgers[k].allowed && p !in ledgers[0].allowed
    ensures i < |cycles| && AddedIn(policy, ledgers, cycles, i, p)
  {
    if p in ledgers[k - 1].allowed {
      i := CycleThatAdded(policy, ledgers, seen, cycles, k - 1, p);
    } else {
      i := k - 1;
      LedgersStayConsistent(policy, ledgers, seen, cycles, i);
      assert IsCycle(policy, ledgers, seen, cycles, i);
      CycleIsBounded(policy, seen[i], ledgers[i], cycles[i]);
    }
  }

  // ---- cycles the gates ask for -----------------------------------------------------------

  /** The failing paths are what a gate persisted; no gate names further evidence or relations. */
  ghost predicate IsOfAGate(policy: Policy, c: Cycle) {
    c.evidence == [] && c.relations == [] && exists raws :: GateEvidence(policy, raws) == Some(c.failingPaths)
  }

  /** Every path the policy finds eligible is allowed. */
  ghost predicate GrantsAll(policy: Policy, req: Request, allowed: seq<string>) {
    forall k :: k in CandidateKeys(policy, req) && Judge(policy, req, k).Eligible? ==>
      Judge(policy, req, k).item.path in allowed
  }

  /** All or nothing: a cycle that widens the manifest had no path cut off by a limit, lets in every
      eligible path, and adds only paths the gate itself named. */
  lemma GateCycleIsAllOrNothing(policy: Policy, seen: Ledger, l: Ledger, c: Cycle)
    requires IsOfAGate(policy, c)
    ensures var n := AfterCycle(policy, seen, l, c);
            n.allowed != l.allowed ==>
              && IsEvaluated(policy, seen, c)
              && |Ranked(policy, RequestOf(seen, c))| <=
                 AcceptedLimit(policy, RequestOf(seen, c), PER_CYCLE_LIMIT, CUMULATIVE_LIMIT)
              && GrantsAll(policy, RequestOf(seen, c), n.allowed)
              && forall p :: p in n.allowed && p !in l.allowed ==> p in Normalized(policy, c.failingPaths)
  {
    hide Ranked, CandidateKeys, AcceptedLimit, Judge, Normalized, NewlyAccepted, Without, RunnerDecision, Justified;
    var n := AfterCycle(policy, seen, l, c);
    if n.allowed != l.allowed {
      var req := RequestOf(seen, c);
      var raws :| GateEvidence(policy, raws) == Some(c.failingPaths);
      GateGrantIsAllOrNothing(policy, req, raws);
      var d := CycleDecision(policy, seen, c);
      NewlyAcceptedIs(l.allowed, d.accepted);
      assert n.allowed == l.allowed + NewlyAccepted(l.allowed, d.accepted);
      assert d.accepted == Ranked(policy, req);
      forall k | k in CandidateKeys(policy, req) && Judge(policy, req, k).Eligible?
        ensures Judge(policy, req, k).item.path in n.allowed
      {
        EligibleIsRanked(policy, req, k);
      }
      forall a | a in d.accepted ensures a.path in Normalized(policy, c.failingPaths) {
        RankedIsNamed(policy, req, a);
      }
    }
  }

  lemma NewlyAcceptedIs(allowed: seq<string>, accepted: seq<Accepted>)
    ensures forall p :: p in NewlyAccepted(allowed, accepted) ==> exists a :: a in accepted && a.path == p
    ensures forall a :: a in accepted ==> a.path in allowed || a.path in NewlyAccepted(allowed, accepted)
    ensures accepted == [] ==> NewlyAccepted(allowed, accepted) == []
  {
    AllPathsNotIn(allowed, accepted);
    assert forall p :: p in Dedup(PathsNotIn(allowed, accepted)) <==> p in PathsNotIn(allowed, accepted);
  }

  lemma {:induction false} AllPathsNotIn(allowed: seq<string>, accepted: seq<Accepted>)
    ensures forall a :: a in accepted ==> a.path in allowed || a.path in PathsNotIn(allowed, accepted)
  {
    if accepted != [] {
      AllPathsNotIn(allowed, accepted[1..]);
      assert accepted == [accepted[0]] + accepted[1..];
    }
  }

  /** Without stated relations, what is eligible failed itself. */
  lemma RankedIsNamed(policy: Policy, req: Request, a: Accepted)
    requires a in Ranked(policy, req) && req.relations == []
    ensures a.path in Normalized(policy, req.event.failingPaths)
  {
    hide Ranked, CandidateKeys, Judge;
    var at :| 0 <= at < |Ranked(policy, req)| && Ranked(policy, req)[at] == a;
    var raw := RankedIsEligible(policy, req, at);
    EligibleIsJustified(policy, req, raw);
  }

  /** An event once recorded never changes the ledger again. */
  lemma {:induction false} RecordedIsFinal(policy: Policy, ledgers: seq<Ledger>, seen: seq<Ledger>, cycles: seq<Cycle>,
                                           i: nat, j: nat)
    requires IsHistory(policy, ledgers, seen, cycles) && i < j < |ledgers|
    requires ledgers[i + 1] != ledgers[i]
    ensures Recorded(ledgers[j].entries, cycles[i].eventId)
  {
    hide CycleDecision, IsEvaluated, NewlyAccepted, Without, ItemsFor;
    assert IsCycle(policy, ledgers, seen, cycles, j - 1);
    if j == i + 1 {
      var entries := ledgers[j].entries;
      assert entries[|entries| - 1] in entries && entries[|entries| - 1].eventId == cycles[i].eventId;
    } else {
      RecordedIsFinal(policy, ledgers, seen, cycles, i, j - 1);
      var e :| e in ledgers[j - 1].entries && e.eventId == cycles[i].eventId;
      assert e in ledgers[j].entries;
    }
  }

  ghost function EventIds(cycles: seq<Cycle>): set<string> { set c | c in cycles :: c.eventId }

  ghost function ProductiveIds(ledgers: seq<Ledger>, cycles: seq<Cycle>, k: nat): set<string>
    requires k < |ledgers| && k <= |cycles|
  {
    set i: nat | i < k && Productive(ledgers, i) :: cycles[i].eventId
  }

  /** Each gate failure event widens at most once: there are no more widening cycles than events. */
  lemma EventsWidenOnce(policy: Policy, ledgers: seq<Ledger>, seen: seq<Ledger>, cycles: seq<Cycle>)
    requires IsHistory(policy, ledgers, seen, cycles)
    ensures forall i, j :: 0 <= i < j < |cycles| && Productive(ledgers, i) && Productive(ledgers, j) ==>
              cycles[i].eventId != cycles[j].eventId
    ensures ProductiveCycles(ledgers, |cycles|) <= |EventIds(cycles)|
  {
    forall i, j | 0 <= i < j < |cycles| && Productive(ledgers, i) && Productive(ledgers, j)
      ensures cycles[i].eventId != cycles[j].eventId
    {
      RecordedIsFinal(policy, ledgers, seen, cycles, i, j);
      assert IsCycle(policy, ledgers, seen, cycles, j);
    }
    ProductiveIdsAre(ledgers, cycles, |cycles|);
    var ids := ProductiveIds(ledgers, cycles, |cycles|);
    forall id | id in ids ensures id in EventIds(cycles) {
      var i: nat :| i < |cycles| && Productive(ledgers, i) && cycles[i].eventId == id;
      assert cycles[i] in cycles;
    }
    assert |EventIds(cycles) - ids| == |EventIds(cycles)| - |ids|;
  }

  lemma {:induction false} ProductiveIdsAre(ledgers: seq<Ledger>, cycles: seq<Cycle>, k: nat)
    requires k < |ledgers| && k <= |cycles|
    requires forall i, j :: 0 <= i < j < k && Productive(ledgers, i) && Productive(ledgers, j) ==>
               cycles[i].eventId != cycles[j].eventId
    ensures |ProductiveIds(ledgers, cycles, k)| == ProductiveCycles(ledgers, k)
  {
    if k == 0 {
      assert ProductiveIds(ledgers, cycles, 0) == {};
    } else {
      ProductiveIdsAre(ledgers, cycles, k - 1);
      var before, after := ProductiveIds(ledgers, cycles, k - 1), ProductiveIds(ledgers, cycles, k);
      if Productive(ledgers, k - 1) {
        assert after == before + {cycles[k - 1].eventId};
        assert cycles[k - 1].eventId !in before;
      } else {
        assert after == before;
      }
    }
  }

  /** Over any sequence of cycles of the gates, stale workers included: whatever widens the manifest
      lets in everything eligible at once and nothing its gate did not name. */
  lemma AmendmentsOfGatesAreWhole(policy: Policy, ledgers: seq<Ledger>, seen: seq<Ledger>, cycles: seq<Cycle>, i: nat)
    requires IsHistory(policy, ledgers, seen, cycles) && i < |cycles| && IsOfAGate(policy, cycles[i])
    requires Productive(ledgers, i)
    ensures IsEvaluated(policy, seen[i], cycles[i]) && seen[i] == ledgers[i]
    ensures GrantsAll(policy, RequestOf(ledgers[i], cycles[i]), ledgers[i + 1].allowed)
    ensures forall p :: p in ledgers[i + 1].allowed && p !in ledgers[i].allowed ==>
              p in Normalized(policy, cycles[i].failingPaths)
  {
    hide AfterCycle, GrantsAll, Normalized, IsEvaluated, Justified, IsOfAGate;
    LedgersStayConsistent(policy, ledgers, seen, cycles, i);
    assert IsCycle(policy, ledgers, seen, cycles, i);
    CycleIsBounded(policy, seen[i], ledgers[i], cycles[i]);
    GateCycleIsAllOrNothing(policy, seen[i], ledgers[i], cycles[i]);
  }
}
