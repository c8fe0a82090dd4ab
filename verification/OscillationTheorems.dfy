/** The gate-oscillation detector over whole runs. */
module OscillationTheorems {
  import opened PyValues
  import opened JobMachine
  import opened RunnerTheorems

  /** No handler puts a `gate_history` of its own into a failure detail. */
  ghost predicate HandlersLeaveHistory(events: seq<Event>) {
    forall i :: 0 <= i < |events| && events[i].GateFailure? && events[i].detail.Some? ==>
      events[i].detail.value.gateHistory == []
  }

  /** Four consecutive entries that read A, B, A, B. */
  ghost predicate Window(h: seq<GateEntry>, w: nat) {
    w + 4 <= |h| && Alternates(h[w], h[w + 1], h[w + 2], h[w + 3])
  }

  ghost predicate NoWindow(h: seq<GateEntry>) { forall w: nat :: !Window(h, w) }

  /** The verdict a review or security failure is about: the one just stored, else the last one. */
  ghost function EntryOf(s: JobState, e: Event): GateEntry
    requires e.GateFailure?
  {
    var step := ExecStep(s.stage);
    GateEntry(step, Fingerprint(if e.stored.Some? then e.stored.value
                                else if step == ReviewStep then s.review else s.securityReview))
  }

  ghost predicate OscillationEvent(s: JobState, e: Event) { e.GateFailure? && ConflictGate(ExecStep(s.stage)) }

  /** Everything that overwrites the failure detail: another gate's failure, a conflict, a
      timeout, a provider pause, a wait for a security remediation. */
  ghost predicate Forgets(s: JobState, e: Event) {
    (e.GateFailure? && !ConflictGate(ExecStep(s.stage))) || e.Conflict? || e.TimedOut? || e.Paused?
    || (e.Wait? && s.stage == Review)
  }

  /** The review and security failures since something last overwrote the failure detail,
      read off the events alone. */
  ghost function Recorded(states: seq<JobState>, events: seq<Event>, k: nat): seq<GateEntry>
    requires k <= |events| && |states| == |events| + 1
  {
    if k == 0 then []
    else
      var s, e := states[k - 1], events[k - 1];
      if OscillationEvent(s, e) then Recorded(states, events, k - 1) + [EntryOf(s, e)]
      else if Forgets(s, e) then []
      else Recorded(states, events, k - 1)
  }

  /** One step appends to the stored history, clears it or leaves it. */
  lemma HistoryStep(caps: Caps, s: JobState, e: Event)
    requires ValidCaps(caps) && Enabled(s, e)
    requires e.GateFailure? && e.detail.Some? ==> e.detail.value.gateHistory == []
    ensures !Terminal(Next(caps, s, e)) ==>
              History(Next(caps, s, e).last.detail) ==
              (if OscillationEvent(s, e) then History(s.last.detail) + [EntryOf(s, e)]
               else if Forgets(s, e) then [] else History(s.last.detail))
  {
    if e.GateFailure? {
      GateFailureHistory(caps.fix, s, e);
      var r := Claimed(s, e);
      RetryHistory(caps.fix, r, e.failure, e.detail);
      assert Next(caps, s, e) == RetryOrFailState(caps.fix, r, e.failure, e.detail);
    }
  }

  lemma RetryHistory(cap: int, r: JobState, failure: string, detail: Option<Detail>)
    requires detail.Some? ==> detail.value.gateHistory == []
    requires r.status == Running
    ensures var t := RetryOrFailState(cap, r, failure, detail);
            var appended := if ConflictGate(CurrentStep(r)) then History(r.last.detail) + [CurrentEntry(r)] else [];
            t.status == Pending ==> History(t.last.detail) == appended
    ensures RetryOrFailState(cap, r, failure, detail).status in {Pending, Failed}
  {
    hide Classified, ConflictDetected, CurrentEntry;
  }

  lemma GateFailureHistory(cap: int, s: JobState, e: Event)
    requires e.GateFailure? && Enabled(s, e)
    requires e.detail.Some? ==> e.detail.value.gateHistory == []
    ensures var r := Claimed(s, e);
            && CurrentStep(r) == ExecStep(s.stage) && r.last == s.last && r.status == Running &&
               r.attempts == s.attempts
            && (OscillationEvent(s, e) ==> CurrentEntry(r) == EntryOf(s, e))
  {
  }

  /** The state a gate failure is decided on. */
  ghost function Claimed(s: JobState, e: Event): JobState
    requires e.GateFailure?
  {
    var r := s.(status := Running, executing := Some(ExecStep(s.stage)));
    if e.stored.Some? then StoreVerdict(r, e.stored.value) else r
  }

  /** A review or security failure is ruled a conflict exactly when it completes A, B, A, B at the
      end of the stored history; then no attempt is spent and a human has to decide. Otherwise it
      spends an attempt, or gives up when none is left. */
  lemma ConflictVerdict(caps: Caps, s: JobState, e: Event)
    requires ValidCaps(caps) && Enabled(s, e) && OscillationEvent(s, e)
    requires e.detail.Some? ==> e.detail.value.gateHistory == []
    requires !(MISSING_WORKTREE <= e.failure)
    ensures var t := Next(caps, s, e);
            && (t.last.code == GateConflict <==> ConflictDetected(History(s.last.detail), EntryOf(s, e)))
            && (t.last.code == GateConflict ==>
                  t.status == Failed && t.last.disposition == HumanReview && t.attempts == s.attempts &&
                  History(t.last.detail) == History(s.last.detail) + [EntryOf(s, e)])
            && (t.last.code != GateConflict ==>
                  if s.attempts < caps.fix then t.stage == Fix && t.status == Pending && t.attempts == s.attempts + 1
                  else t.status == Failed && t.attempts == s.attempts)
  {
    GateFailureHistory(caps.fix, s, e);
    var r := Claimed(s, e);
    assert Next(caps, s, e) == RetryOrFailState(caps.fix, r, e.failure, e.detail);
    RetryVerdict(caps.fix, r, e.failure, e.detail);
  }

  lemma RetryVerdict(cap: int, r: JobState, failure: string, detail: Option<Detail>)
    requires ConflictGate(CurrentStep(r)) && !(MISSING_WORKTREE <= failure)
    ensures var t := RetryOrFailState(cap, r, failure, detail);
            && (t.last.code == GateConflict <==> ConflictDetected(History(r.last.detail), CurrentEntry(r)))
            && (t.last.code == GateConflict ==>
                  t.status == Failed && t.last.disposition == HumanReview && t.attempts == r.attempts &&
                  History(t.last.detail) == History(r.last.detail) + [CurrentEntry(r)])
            && (t.last.code != GateConflict ==>
                  if r.attempts < cap then t.stage == Fix && t.status == Pending && t.attempts == r.attempts + 1
                  else t.status == Failed && t.attempts == r.attempts)
  {
    hide ConflictDetected, CurrentEntry, ConflictMessage, GaveUpMessage, WithHistory, OriginOf;
  }

  // ---- when two verdicts are the same --------------------------------------------------------

  /** What a verdict says under "summary"; nothing, or something false, counts as no text. */
  ghost predicate SummaryIs(verdict: PyValue, summary: PyValue) {
    var given := if verdict.PyDict? && "summary" in verdict.entries then verdict.entries["summary"] else PyNone;
    if given == PyNone || given == PyInt(0) || given == PyStr("") || given == PyList([]) || given == PyDict(map[])
    then summary == PyStr("") else summary == given
  }

  ghost predicate SameSummary(a: PyValue, b: PyValue) {
    exists summary :: SummaryIs(a, summary) && SummaryIs(b, summary)
  }

  ghost function FindingsOf(verdict: PyValue): seq<PyValue> {
    if verdict.PyDict? && "findings" in verdict.entries && verdict.entries["findings"].PyList?
    then verdict.entries["findings"].items else []
  }

  /** The places of the dicts, in order. */
  ghost predicate DictsAt(items: seq<PyValue>, at: seq<nat>) {
    && (forall i, j :: 0 <= i < j < |at| ==> at[i] < at[j])
    && forall n: nat :: n in at <==> n < |items| && items[n].PyDict?
  }

  ghost predicate SameUnder(a: PyValue, b: PyValue, key: string)
    requires a.PyDict? && b.PyDict?
  {
    (if key in a.entries then a.entries[key] else PyNone) == (if key in b.entries then b.entries[key] else PyNone)
  }

  /** Both have as many findings that are dicts, and these agree one by one. */
  ghost predicate SameFindings(a: PyValue, b: PyValue) { SameDicts(FindingsOf(a), FindingsOf(b)) }

  ghost predicate SameDicts(a: seq<PyValue>, b: seq<PyValue>) {
    exists i, j :: DictsAt(a, i) && DictsAt(b, j) && |i| == |j| &&
                   forall k :: 0 <= k < |i| ==> AgreeAt(a, i[k], b, j[k])
  }

  ghost predicate AgreeAt(a: seq<PyValue>, i: nat, b: seq<PyValue>, j: nat) {
    && i < |a| && j < |b| && a[i].PyDict? && b[j].PyDict?
    && SameUnder(a[i], b[j], "severity") && SameUnder(a[i], b[j], "note")
  }

  ghost function KeyOf(item: PyValue): PyValue
    requires item.PyDict?
  {
    PyList([Get(item.entries, "severity"), Get(item.entries, "note")])
  }

  /** The keys are those of the items at these places. */
  ghost predicate KeysAt(items: seq<PyValue>, at: seq<nat>) {
    && |FindingKeys(items)| == |at|
    && forall k :: 0 <= k < |at| ==>
         at[k] < |items| && items[at[k]].PyDict? && FindingKeys(items)[k] == KeyOf(items[at[k]])
  }

  lemma {:induction false} KeysOfDicts(items: seq<PyValue>) returns (at: seq<nat>)
    ensures DictsAt(items, at) && KeysAt(items, at)
  {
    hide DictsAt, KeysAt;
    if items == [] {
      at := [];
      NoKeys();
    } else {
      var rest := KeysOfDicts(items[1..]);
      var later: seq<nat> := seq(|rest|, k requires 0 <= k < |rest| => rest[k] + 1);
      at := if items[0].PyDict? then [0] + later else later;
      LaterDicts(items, rest, later);
      LaterKeys(items, rest, later);
    }
  }

  lemma NoKeys()
    ensures DictsAt([], []) && KeysAt([], [])
  {
  }

  lemma LaterKeys(items: seq<PyValue>, rest: seq<nat>, later: seq<nat>)
    requires items != [] && KeysAt(items[1..], rest) && |later| == |rest|
    requires forall k :: 0 <= k < |rest| ==> later[k] == rest[k] + 1
    ensures KeysAt(items, if items[0].PyDict? then [0] + later else later)
  {
    var at := if items[0].PyDict? then [0] + later else later;
    var first := if items[0].PyDict? then [KeyOf(items[0])] else [];
    assert FindingKeys(items) == first + FindingKeys(items[1..]);
    forall k | 0 <= k < |at|
      ensures at[k] < |items| && items[at[k]].PyDict? && FindingKeys(items)[k] == KeyOf(items[at[k]])
    {
      if k >= |first| { assert at[k] == rest[k - |first|] + 1; }
    }
  }

  lemma LaterDicts(items: seq<PyValue>, rest: seq<nat>, later: seq<nat>)
    requires items != [] && DictsAt(items[1..], rest) && |later| == |rest|
    requires forall k :: 0 <= k < |rest| ==> later[k] == rest[k] + 1
    ensures DictsAt(items, if items[0].PyDict? then [0] + later else later)
  {
    var at := if items[0].PyDict? then [0] + later else later;
    forall n: nat ensures n in at <==> n < |items| && items[n].PyDict? {
      if n > 0 && n - 1 in rest {
        var k :| 0 <= k < |rest| && rest[k] == n - 1;
        assert later[k] == n;
      }
      if n in later {
        var k :| 0 <= k < |later| && later[k] == n;
        assert rest[k] in rest;
      }
      if n > 0 && n < |items| { assert items[1..][n - 1] == items[n]; }
    }
  }

  /** There is only one such list of places. */
  lemma {:induction false} PlacesAreUnique(i: seq<nat>, j: seq<nat>)
    requires forall x, y :: 0 <= x < y < |i| ==> i[x] < i[y]
    requires forall x, y :: 0 <= x < y < |j| ==> j[x] < j[y]
    requires forall n: nat :: n in i <==> n in j
    ensures i == j
    decreases |i|
  {
    assert |i| > 0 ==> i[0] in j;
    assert |j| > 0 ==> j[0] in i;
    if i != [] {
      LastPlace(i, j);
      LastPlace(j, i);
      var x, y := i[..|i| - 1], j[..|j| - 1];
      forall n: nat ensures n in x <==> n in y {
        InitPlaces(i, n);
        InitPlaces(j, n);
      }
      PlacesAreUnique(x, y);
      assert i == x + [i[|i| - 1]] && j == y + [j[|j| - 1]];
    }
  }

  lemma LastPlace(i: seq<nat>, j: seq<nat>)
    requires i != [] && j != [] && (forall x, y :: 0 <= x < y < |i| ==> i[x] < i[y])
    requires forall n: nat :: n in j ==> n in i
    ensures j[|j| - 1] <= i[|i| - 1]
  {
    assert j[|j| - 1] in i;
  }

  lemma InitPlaces(i: seq<nat>, n: nat)
    requires i != [] && (forall x, y :: 0 <= x < y < |i| ==> i[x] < i[y])
    ensures n in i[..|i| - 1] <==> n in i && n != i[|i| - 1]
  {
    if n in i && n != i[|i| - 1] {
      var k :| 0 <= k < |i| && i[k] == n;
      assert i[..|i| - 1][k] == n;
    }
  }

  /** Two verdicts have one fingerprint exactly when they have the same summary, and findings of the
      same severities and notes in the same order. */
  lemma FingerprintsAgree(a: PyValue, b: PyValue)
    ensures Fingerprint(a) == Fingerprint(b) <==> SameSummary(a, b) && SameFindings(a, b)
  {
    hide FindingKeys, SameDicts, SameSummary, FindingsOf, Fingerprint;
    SummariesAgree(a, b);
    FingerprintIs(a);
    FingerprintIs(b);
    PairsAgree(SummaryText(a), FindingKeys(FindingsOf(a)), SummaryText(b), FindingKeys(FindingsOf(b)));
    DictKeysAgree(FindingsOf(a), FindingsOf(b));
  }

  lemma PairsAgree(s: PyValue, x: seq<PyValue>, t: PyValue, y: seq<PyValue>)
    ensures PyList([s, PyList(x)]) == PyList([t, PyList(y)]) <==> s == t && x == y
  {
    if PyList([s, PyList(x)]) == PyList([t, PyList(y)]) {
      assert [s, PyList(x)][0] == [t, PyList(y)][0] && [s, PyList(x)][1] == [t, PyList(y)][1];
    }
  }

  lemma DictKeysAgree(a: seq<PyValue>, b: seq<PyValue>)
    ensures FindingKeys(a) == FindingKeys(b) <==> SameDicts(a, b)
  {
    hide DictsAt, FindingKeys, KeyOf, SameUnder;
    var i := KeysOfDicts(a);
    var j := KeysOfDicts(b);
    if FindingKeys(a) == FindingKeys(b) {
      forall k | 0 <= k < |i| ensures AgreeAt(a, i[k], b, j[k]) {
        KeysAgree(a[i[k]], b[j[k]]);
      }
    }
    if SameDicts(a, b) {
      var p, q :| DictsAt(a, p) && DictsAt(b, q) && |p| == |q| &&
                  forall k :: 0 <= k < |p| ==> AgreeAt(a, p[k], b, q[k]);
      DictsAreUnique(a, i, p);
      DictsAreUnique(b, j, q);
      forall k | 0 <= k < |i| ensures FindingKeys(a)[k] == FindingKeys(b)[k] {
        KeysAgree(a[i[k]], b[j[k]]);
      }
    }
  }

  lemma DictsAreUnique(items: seq<PyValue>, i: seq<nat>, j: seq<nat>)
    requires DictsAt(items, i) && DictsAt(items, j)
    ensures i == j
  {
    PlacesAreUnique(i, j);
  }

  lemma KeysAgree(a: PyValue, b: PyValue)
    requires a.PyDict? && b.PyDict?
    ensures KeyOf(a) == KeyOf(b) <==> SameUnder(a, b, "severity") && SameUnder(a, b, "note")
  {
    if KeyOf(a) == KeyOf(b) {
      assert KeyOf(a).items[0] == KeyOf(b).items[0] && KeyOf(a).items[1] == KeyOf(b).items[1];
    }
  }

  ghost function SummaryText(verdict: PyValue): PyValue {
    var summary := if verdict.PyDict? && "summary" in verdict.entries then verdict.entries["summary"] else PyNone;
    if Truthy(summary) then summary else PyStr("")
  }

  lemma SummariesAgree(a: PyValue, b: PyValue)
    ensures SameSummary(a, b) <==> SummaryText(a) == SummaryText(b)
  {
    assert forall v: PyValue :: SummaryIs(v, SummaryText(v));
    assert forall v: PyValue, s :: SummaryIs(v, s) ==> s == SummaryText(v);
  }

  lemma FingerprintIs(verdict: PyValue)
    ensures Fingerprint(verdict) == PyList([SummaryText(verdict), PyList(FindingKeys(FindingsOf(verdict)))])
  {
  }

  lemma NoNewWindow(h: seq<GateEntry>, x: GateEntry)
    requires NoWindow(h)
    ensures NoWindow(h + [x]) <==> !ConflictDetected(h, x)
  {
    var g := h + [x];
    if ConflictDetected(h, x) {
      assert Window(g, |g| - 4);
    }
    forall w: nat | Window(g, w) ensures ConflictDetected(h, x) {
      if w + 4 <= |h| {
        assert Window(h, w);
      }
    }
  }

  /** In every reachable live job the stored history is the record of the events, and holds no
      A, B, A, B window anywhere. */
  lemma {:induction false} HistoryIsRecord(caps: Caps, states: seq<JobState>, events: seq<Event>, k: nat)
    requires IsRunPrefix(caps, states, events, k) && HandlersLeaveHistory(events)
    ensures !Terminal(states[k]) ==> History(states[k].last.detail) == Recorded(states, events, k)
    ensures !Terminal(states[k]) ==> NoWindow(Recorded(states, events, k))
  {
    if k > 0 {
      var p := k - 1;
      HistoryIsRecord(caps, states, events, p);
      AliveBefore(caps, states, events, p);
      assert IsStep(caps, states, events, p);
      HistoryStep(caps, states[p], events[p]);
      if OscillationEvent(states[p], events[p]) && !Terminal(states[k]) {
        NoNewWindow(Recorded(states, events, p), EntryOf(states[p], events[p]));
        LiveIsNotMissing(caps, states[p], events[p]);
        LiveIsNoConflict(caps, states[p], events[p]);
      }
    }
  }

  lemma LiveIsNotMissing(caps: Caps, s: JobState, e: Event)
    requires Enabled(s, e) && e.GateFailure? && !Terminal(Next(caps, s, e))
    ensures !(MISSING_WORKTREE <= e.failure)
  {
    assert Next(caps, s, e) == RetryOrFailState(caps.fix, Claimed(s, e), e.failure, e.detail);
  }

  lemma LiveIsNoConflict(caps: Caps, s: JobState, e: Event)
    requires ValidCaps(caps) && Enabled(s, e) && OscillationEvent(s, e)
    requires e.detail.Some? ==> e.detail.value.gateHistory == []
    requires !(MISSING_WORKTREE <= e.failure) && !Terminal(Next(caps, s, e))
    ensures !ConflictDetected(History(s.last.detail), EntryOf(s, e))
  {
    ConflictVerdict(caps, s, e);
  }

  /** Within a stretch of review and security failures the job fails as a gate conflict at the
      first A, B, A, B window of the record, and never before. */
  lemma OscillationCaughtAtFirstWindow(caps: Caps, states: seq<JobState>, events: seq<Event>, k: nat)
    requires IsRunPrefix(caps, states, events, k) && k < |events| && HandlersLeaveHistory(events)
    requires OscillationEvent(states[k], events[k]) && !(MISSING_WORKTREE <= events[k].failure)
    ensures states[k + 1].last.code == GateConflict <==> !NoWindow(Recorded(states, events, k + 1))
    ensures NoWindow(Recorded(states, events, k))
    ensures states[k + 1].last.code == GateConflict ==>
              states[k + 1].status == Failed && states[k + 1].attempts == states[k].attempts
  {
    HistoryIsRecord(caps, states, events, k);
    AliveBefore(caps, states, events, k);
    assert IsStep(caps, states, events, k);
    ConflictVerdict(caps, states[k], events[k]);
    NoNewWindow(Recorded(states, events, k), EntryOf(states[k], events[k]));
  }

  /** A wait for a security remediation hides a window: the verdict that would have been ruled a
      conflict is repaired like any other when it comes after the wait. */
  lemma WaitHidesAWindow(caps: Caps, s: JobState, e: Event)
    requires ValidCaps(caps) && s.stage == Review && Enabled(s, Wait) && Enabled(s, e) && e.GateFailure?
    requires e.detail.Some? ==> e.detail.value.gateHistory == []
    requires !(MISSING_WORKTREE <= e.failure) && s.attempts < caps.fix
    requires ConflictDetected(History(s.last.detail), EntryOf(s, e))
    ensures Next(caps, s, e).status == Failed && Next(caps, s, e).last.code == GateConflict
    ensures var waited := Next(caps, s, Wait);
            && Enabled(waited, e) && EntryOf(waited, e) == EntryOf(s, e)
            && Next(caps, waited, e).stage == Fix && Next(caps, waited, e).status == Pending
            && History(Next(caps, waited, e).last.detail) == [EntryOf(s, e)]
  {
    hide Next, CanReport, ConflictDetected, Fingerprint;
    ConflictVerdict(caps, s, e);
    var waited := Next(caps, s, Wait);
    WaitClears(caps, s);
    NoWindowInOne(EntryOf(waited, e));
    ConflictVerdict(caps, waited, e);
    HistoryStep(caps, waited, e);
    assert [] + [EntryOf(waited, e)] == [EntryOf(waited, e)];
  }

  lemma WaitClears(caps: Caps, s: JobState)
    requires ValidCaps(caps) && s.stage == Review && Enabled(s, Wait)
    ensures var w := Next(caps, s, Wait);
            && w.stage == Review && w.status == Pending && w.executing == None && w.last == NO_FAILURE
            && w.attempts == s.attempts && w.review == s.review && w.securityReview == s.securityReview
  {
  }

  lemma NoWindowInOne(x: GateEntry)
    ensures !ConflictDetected([], x)
  {
  }

  // ---- a gate conflict, told from the run ------------------------------------------------------

  /** A failure out of TEST is the review's, one out of REVIEW the security review's. */
  ghost predicate IsRejection(s: JobState, e: Event) { e.GateFailure? && (s.stage == Test || s.stage == Review) }

  /** The verdict stored with the failure, else the one the job still carries. */
  ghost function VerdictOf(s: JobState, e: Event): PyValue
    requires IsRejection(s, e)
  {
    if e.stored.Some? then e.stored.value else if s.stage == Test then s.review else s.securityReview
  }

  ghost predicate Quiet(states: seq<JobState>, events: seq<Event>, i: nat)
    requires i < |events| && |states| == |events| + 1
  {
    !IsRejection(states[i], events[i]) && !Forgets(states[i], events[i])
  }

  /** The step before k that was a rejection, with nothing between that rejects or forgets. */
  ghost predicate IsPrevious(states: seq<JobState>, events: seq<Event>, i: nat, k: nat)
    requires k <= |events| && |states| == |events| + 1
  {
    i < k && IsRejection(states[i], events[i]) && forall j :: i < j < k ==> Quiet(states, events, j)
  }

  /** The same gate, saying the same. */
  ghost predicate SameRejection(s: JobState, e: Event, t: JobState, f: Event)
    requires IsRejection(s, e) && IsRejection(t, f)
  {
    && s.stage == t.stage
    && SameSummary(VerdictOf(s, e), VerdictOf(t, f)) && SameFindings(VerdictOf(s, e), VerdictOf(t, f))
  }

  lemma RejectionsAre(s: JobState, e: Event)
    ensures IsRejection(s, e) <==> OscillationEvent(s, e)
    ensures IsRejection(s, e) ==>
              EntryOf(s, e) ==
              GateEntry(if s.stage == Test then ReviewStep else SecurityStep, Fingerprint(VerdictOf(s, e)))
  {
  }

  lemma SameEntries(s: JobState, e: Event, t: JobState, f: Event)
    requires IsRejection(s, e) && IsRejection(t, f)
    ensures EntryOf(s, e) == EntryOf(t, f) <==> SameRejection(s, e, t, f)
    ensures EntryOf(s, e).gate != EntryOf(t, f).gate <==> s.stage != t.stage
  {
    hide Fingerprint, SameSummary, SameFindings;
    RejectionsAre(s, e);
    RejectionsAre(t, f);
    FingerprintsAgree(VerdictOf(s, e), VerdictOf(t, f));
  }

  lemma {:induction false} PreviousIsLast(states: seq<JobState>, events: seq<Event>, i: nat, k: nat)
    requires k <= |events| && |states| == |events| + 1 && IsPrevious(states, events, i, k)
    ensures Recorded(states, events, k) == Recorded(states, events, i) + [EntryOf(states[i], events[i])]
  {
    hide EntryOf, Forgets;
    RejectionsAre(states[k - 1], events[k - 1]);
    if i < k - 1 {
      assert Quiet(states, events, k - 1);
      PreviousIsLast(states, events, i, k - 1);
    }
  }

  lemma {:induction false} LastHasPrevious(states: seq<JobState>, events: seq<Event>, k: nat) returns (i: nat)
    requires k <= |events| && |states| == |events| + 1 && Recorded(states, events, k) != []
    ensures IsPrevious(states, events, i, k)
  {
    hide EntryOf, Forgets;
    RejectionsAre(states[k - 1], events[k - 1]);
    if IsRejection(states[k - 1], events[k - 1]) {
      i := k - 1;
    } else {
      i := LastHasPrevious(states, events, k - 1);
      assert Quiet(states, events, k - 1);
    }
  }

  /** Four rejections in a stretch: the first two come from different gates, the third says again
      what the first said, and the fourth what the second said. */
  ghost predicate IsAlternation(states: seq<JobState>, events: seq<Event>, a: nat, b: nat, c: nat, k: nat)
    requires k < |events| && |states| == |events| + 1 && IsRejection(states[k], events[k])
  {
    && a < b < c < k
    && IsPrevious(states, events, a, b) && IsPrevious(states, events, b, c) && IsPrevious(states, events, c, k)
    && states[a].stage != states[b].stage
    && SameRejection(states[a], events[a], states[c], events[c])
    && SameRejection(states[b], events[b], states[k], events[k])
  }

  lemma AlternationHasOrder(states: seq<JobState>, events: seq<Event>, a: nat, b: nat, c: nat, k: nat)
    requires k < |events| && |states| == |events| + 1 && IsRejection(states[k], events[k])
    requires IsAlternation(states, events, a, b, c, k)
    ensures a < b < c < k && IsPrevious(states, events, a, b) && IsPrevious(states, events, b, c)
    ensures IsPrevious(states, events, c, k)
  {
  }

  lemma PreviousIsBefore(states: seq<JobState>, events: seq<Event>, i: nat, k: nat)
    requires k <= |events| && |states| == |events| + 1 && IsPrevious(states, events, i, k)
    ensures i < k
  {
  }

  /** In any run a rejection is ruled a gate conflict exactly when it is the fourth of such a stretch. */
  lemma ConflictIffAlternating(caps: Caps, states: seq<JobState>, events: seq<Event>, k: nat)
    requires IsRunPrefix(caps, states, events, k) && k < |events| && HandlersLeaveHistory(events)
    requires IsRejection(states[k], events[k]) && !(MISSING_WORKTREE <= events[k].failure)
    ensures states[k + 1].last.code == GateConflict <==>
            exists a: nat, b: nat, c: nat :: IsAlternation(states, events, a, b, c, k)
  {
    hide EntryOf, SameRejection, Next, IsPrevious, IsAlternation;
    RejectionsAre(states[k], events[k]);
    HistoryIsRecord(caps, states, events, k);
    AliveBefore(caps, states, events, k);
    assert IsStep(caps, states, events, k);
    ConflictVerdict(caps, states[k], events[k]);
    if ConflictDetected(Recorded(states, events, k), EntryOf(states[k], events[k])) {
      var c := LastHasPrevious(states, events, k);
      PreviousIsBefore(states, events, c, k);
      BeforeIsRecorded(states, events, c, k, 2);
      var b := LastHasPrevious(states, events, c);
      PreviousIsBefore(states, events, b, c);
      BeforeIsRecorded(states, events, b, c, 1);
      var a := LastHasPrevious(states, events, b);
      AlternatesOnRun(states, events, a, b, c, k);
    }
    if a: nat, b: nat, c: nat :| IsAlternation(states, events, a, b, c, k) {
      AlternationHasOrder(states, events, a, b, c, k);
      AlternatesOnRun(states, events, a, b, c, k);
    }
  }

  lemma BeforeIsRecorded(states: seq<JobState>, events: seq<Event>, i: nat, k: nat, n: nat)
    requires k <= |events| && |states| == |events| + 1 && IsPrevious(states, events, i, k)
    requires |Recorded(states, events, k)| > n
    ensures |Recorded(states, events, i)| >= n
  {
    PreviousIsLast(states, events, i, k);
  }

  lemma AlternatesOnRun(states: seq<JobState>, events: seq<Event>, a: nat, b: nat, c: nat, k: nat)
    requires k < |events| && |states| == |events| + 1 && IsRejection(states[k], events[k])
    requires IsPrevious(states, events, c, k) && IsPrevious(states, events, b, c) && IsPrevious(states, events, a, b)
    ensures ConflictDetected(Recorded(states, events, k), EntryOf(states[k], events[k])) <==>
            IsAlternation(states, events, a, b, c, k)
  {
    hide EntryOf, SameRejection;
    PreviousIsLast(states, events, c, k);
    PreviousIsLast(states, events, b, c);
    PreviousIsLast(states, events, a, b);
    SameEntries(states[a], events[a], states[b], events[b]);
    SameEntries(states[a], events[a], states[c], events[c]);
    SameEntries(states[b], events[b], states[k], events[k]);
    var h := Recorded(states, events, k);
    assert h + [EntryOf(states[k], events[k])] ==
           Recorded(states, events, a) + [EntryOf(states[a], events[a]), EntryOf(states[b], events[b]),
                                          EntryOf(states[c], events[c]), EntryOf(states[k], events[k])];
  }

  // ---- a run whose window is hidden -------------------------------------------------------

  function ReviewSays(verdict: PyValue): Event { GateFailure("review rejected:", None, Some(verdict)) }

  function SecuritySays(verdict: PyValue): Event { GateFailure("security rejected:", None, Some(verdict)) }

  function Passes(n: nat): (events: seq<Event>)
    ensures |events| == n && forall e :: e in events ==> e == Advance(PyNone)
  {
    seq(n, _ => Advance(PyNone))
  }

  /** From a fresh job to the third REVIEW: review a, security b, review a, and each time the fix. */
  function ThreeVerdicts(a: PyValue, b: PyValue): seq<Event> {
    Passes(4) + [ReviewSays(a)] + Passes(3) + Passes(1) + [SecuritySays(b)] + Passes(3)
    + [ReviewSays(a)] + Passes(3) + Passes(1)
  }

  /** The run has come to `stage`, alive, with the given attempts spent and history stored. */
  ghost predicate StandsAt(caps: Caps, states: seq<JobState>, events: seq<Event>, stage: Stage, spent: nat,
                           h: seq<GateEntry>)
  {
    && IsRun(caps, states, events)
    && var s := states[|events|];
       && s.stage == stage && s.status == Pending && s.executing == None && s.attempts == spent
       && History(s.last.detail) == h && !(CONFLICT_MARK <= s.failure)
  }

  lemma PassOnce(caps: Caps, states: seq<JobState>, events: seq<Event>, from: Stage, to: Stage, spent: nat,
                 h: seq<GateEntry>)
    returns (states': seq<JobState>, events': seq<Event>)
    requires StandsAt(caps, states, events, from, spent, h) && Active(from) && from != Deploy
    requires to == NextStage(states[|events|])
    ensures StandsAt(caps, states', events', to, spent, h) && events' == events + Passes(1)
  {
    hide History;
    states', events' := Extend(caps, states, events, Advance(PyNone));
    assert IsStep(caps, states', events', |events|);
    HistoryStep(caps, states[|events|], Advance(PyNone));
  }

  lemma PassThrice(caps: Caps, states: seq<JobState>, events: seq<Event>, spent: nat, h: seq<GateEntry>)
    returns (states': seq<JobState>, events': seq<Event>)
    requires StandsAt(caps, states, events, Fix, spent, h)
    ensures StandsAt(caps, states', events', Test, spent, h) && events' == events + Passes(3)
  {
    states', events' := PassOnce(caps, states, events, Fix, Lint, spent, h);
    states', events' := PassOnce(caps, states', events', Lint, Build, spent, h);
    states', events' := PassOnce(caps, states', events', Build, Test, spent, h);
  }

  /** A verdict that completes no window spends an attempt and is stored. */
  lemma Reject(caps: Caps, states: seq<JobState>, events: seq<Event>, from: Stage, e: Event, x: GateEntry, spent: nat,
               h: seq<GateEntry>)
    returns (states': seq<JobState>, events': seq<Event>)
    requires StandsAt(caps, states, events, from, spent, h) && spent < caps.fix
    requires e.GateFailure? && e.detail == None && CanReport(from, e.failure) && ConflictGate(ExecStep(from))
    requires x == EntryOf(states[|events|], e) && !ConflictDetected(h, x)
    requires !(MISSING_WORKTREE <= e.failure) && !(CONFLICT_MARK <= e.failure)
    ensures StandsAt(caps, states', events', Fix, spent + 1, h + [x]) && events' == events + [e]
  {
    hide History, CanReport, ConflictDetected, EntryOf, MISSING_WORKTREE, CONFLICT_MARK;
    var s := states[|events|];
    states', events' := Extend(caps, states, events, e);
    assert IsStep(caps, states', events', |events|);
    ConflictVerdict(caps, s, e);
    HistoryStep(caps, s, e);
  }

  lemma VerdictsAreReported()
    ensures CanReport(Test, "review rejected:") && CanReport(Review, "security rejected:")
    ensures !(MISSING_WORKTREE <= "review rejected:") && !(MISSING_WORKTREE <= "security rejected:")
    ensures !(CONFLICT_MARK <= "review rejected:") && !(CONFLICT_MARK <= "security rejected:")
  {
    assert "review rejected:" in FailurePrefixes(Test) && "security rejected:" in FailurePrefixes(Review);
    assert "review rejected:" <= "review rejected:" && "security rejected:" <= "security rejected:";
    assert MISSING_WORKTREE[0] == 't' && CONFLICT_MARK[0] == '[';
  }

  lemma FreshStandsAt(caps: Caps, states: seq<JobState>, events: seq<Event>)
    requires IsRun(caps, states, events) && At(states, events, Test) && Visits(states, FORWARD[..5])
    requires forall e :: e in events ==> e == Advance(PyNone)
    ensures StandsAt(caps, states, events, Test, 0, []) && events == Passes(4)
  {
    FreshHistory(caps, states, events, |events|);
    assert |FORWARD[..5]| == 5;
    forall i | 0 <= i < |events| ensures events[i] == Passes(4)[i] { assert events[i] in events; }
  }

  lemma {:induction false} FreshHistory(caps: Caps, states: seq<JobState>, events: seq<Event>, k: nat)
    requires IsRun(caps, states, events) && k <= |events| && forall e :: e in events ==> e == Advance(PyNone)
    ensures states[k].last == NO_FAILURE && states[k].failure == ""
  {
    if k > 0 {
      FreshHistory(caps, states, events, k - 1);
      assert IsStep(caps, states, events, k - 1) && events[k - 1] in events;
    }
  }

  lemma PassReview(caps: Caps, states: seq<JobState>, events: seq<Event>, spent: nat, h: seq<GateEntry>)
    returns (states': seq<JobState>, events': seq<Event>)
    requires StandsAt(caps, states, events, Test, spent, h)
    ensures StandsAt(caps, states', events', Review, spent, h) && events' == events + Passes(1)
  {
    states', events' := PassOnce(caps, states, events, Test, Review, spent, h);
  }

  /** A verdict too early for a window, and its fix. */
  lemma RejectAndFix(caps: Caps, states: seq<JobState>, events: seq<Event>, from: Stage, e: Event, x: GateEntry,
                     spent: nat,
                     h: seq<GateEntry>, g: seq<GateEntry>)
    returns (states': seq<JobState>, events': seq<Event>)
    requires StandsAt(caps, states, events, from, spent, h) && spent < caps.fix && |h| < 3 && g == h + [x]
    requires e.GateFailure? && e.detail == None && CanReport(from, e.failure) && ConflictGate(ExecStep(from))
    requires e.stored.Some? && x == GateEntry(ExecStep(from), Fingerprint(e.stored.value))
    requires !(MISSING_WORKTREE <= e.failure) && !(CONFLICT_MARK <= e.failure)
    ensures StandsAt(caps, states', events', Test, spent + 1, g) && events' == events + [e] + Passes(3)
  {
    hide CanReport, MISSING_WORKTREE, CONFLICT_MARK;
    states', events' := Reject(caps, states, events, from, e, x, spent, h);
    states', events' := PassThrice(caps, states', events', spent + 1, g);
  }

  lemma ThreeVerdictsRun(caps: Caps, a: PyValue, b: PyValue)
    returns (states: seq<JobState>, events: seq<Event>, h: seq<GateEntry>)
    requires ValidCaps(caps) && caps.fix >= 4
    ensures StandsAt(caps, states, events, Review, 3, h) && events == ThreeVerdicts(a, b)
    ensures ConflictDetected(h, GateEntry(SecurityStep, Fingerprint(b)))
  {
    hide Fingerprint, StandsAt, CanReport, Passes;
    VerdictsAreReported();
    var x, y := GateEntry(ReviewStep, Fingerprint(a)), GateEntry(SecurityStep, Fingerprint(b));
    states, events := GoForward(caps, 4);
    FreshStandsAt(caps, states, events);
    states, events := RejectAndFix(caps, states, events, Test, ReviewSays(a), x, 0, [], [x]);
    states, events := PassReview(caps, states, events, 1, [x]);
    states, events := RejectAndFix(caps, states, events, Review, SecuritySays(b), y, 1, [x], [x, y]);
    states, events := RejectAndFix(caps, states, events, Test, ReviewSays(a), x, 2, [x, y], [x, y, x]);
    states, events := PassReview(caps, states, events, 3, [x, y, x]);
    h := [x, y, x];
  }

  /** With the window hidden or not: the same fourth verdict is ruled a gate conflict, or goes to FIX
      when the job waited for a security remediation in between. */
  lemma WaitHidesAWindowOfARun(caps: Caps, a: PyValue, b: PyValue)
    returns (caught: seq<JobState>, hidden: seq<JobState>)
    requires ValidCaps(caps) && caps.fix >= 4
    ensures IsRun(caps, caught, ThreeVerdicts(a, b) + [SecuritySays(b)])
    ensures caught[|caught| - 1].status == Failed && caught[|caught| - 1].last.code == GateConflict
    ensures IsRun(caps, hidden, ThreeVerdicts(a, b) + [Wait, SecuritySays(b)])
    ensures hidden[|hidden| - 1].stage == Fix && hidden[|hidden| - 1].status == Pending
  {
    hide Fingerprint, ConflictDetected, CanReport, ThreeVerdicts, Passes, Next;
    VerdictsAreReported();
    var states, events, h := ThreeVerdictsRun(caps, a, b);
    var s, e := states[|events|], SecuritySays(b);
    WaitHidesAWindow(caps, s, e);
    var last;
    caught, last := Extend(caps, states, events, e);
    assert IsStep(caps, caught, last, |events|);
    hidden, last := Extend(caps, states, events, Wait);
    assert IsStep(caps, hidden, last, |events|);
    var waiting := last;
    hidden, last := Extend(caps, hidden, waiting, e);
    assert IsStep(caps, hidden, last, |waiting|);
    assert events + [Wait] + [e] == events + [Wait, e];
  }
}
