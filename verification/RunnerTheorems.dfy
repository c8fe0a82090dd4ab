/** Whole runs of the job state machine: budgets and termination, the gates before a merge,
    and the gate-oscillation detector. */
module RunnerTheorems {
  import opened PyValues
  import opened JobMachine

  /** `states[i]` goes to `states[i + 1]` by `events[i]`; any interleaving of outcomes. */
  ghost predicate IsRun(caps: Caps, states: seq<JobState>, events: seq<Event>) {
    && ValidCaps(caps)
    && |states| == |events| + 1
    && states[0] == FreshJob()
    && forall i: nat :: i < |events| ==> IsStep(caps, states, events, i)
  }

  ghost predicate IsStep(caps: Caps, states: seq<JobState>, events: seq<Event>, i: nat)
    requires i < |events| && |states| == |events| + 1
  {
    Enabled(states[i], events[i]) && states[i + 1] == Next(caps, states[i], events[i])
  }

  ghost predicate IsRunPrefix(caps: Caps, states: seq<JobState>, events: seq<Event>, k: nat) {
    IsRun(caps, states, events) && k <= |events|
  }

  // ---- what a step does to the fields the theorems speak of -----------------------

  predicate Fails(s: JobState, t: JobState) {
    t.status == Failed && t.stage == s.stage && t.attempts == s.attempts
  }

  /** Alive at `stage`, with the given credits spent. */
  predicate Lives(s: JobState, t: JobState, stage: Stage, fix: nat, rebase: nat, timeout: nat) {
    && t.stage == stage && t.status == Pending && t.executing == None
    && t.attempts == s.attempts + fix && t.rebaseAttempts == s.rebaseAttempts + rebase
    && t.timeoutAttempts == s.timeoutAttempts + timeout
  }

  /** The outcome of each event, stage, status, budgets and failure text only. */
  ghost predicate Effect(caps: Caps, s: JobState, e: Event, t: JobState) {
    match e
    case Advance(_) => Active(s.stage) && t.failure == s.failure &&
      (if s.stage == Deploy then t.status == Finished && t.stage == Done && Spent(t) == Spent(s) && SameBudgets(s, t)
       else Lives(s, t, NextStage(s), 0, 0, 0))
    case GateFailure(failure, _, _) =>
      && ((Fails(s, t) && SameBudgets(s, t)) ||
          (s.attempts < caps.fix && Lives(s, t, Fix, 1, 0, 0) && t.failure == failure))
      && (s.attempts < caps.fix && !(MISSING_WORKTREE <= failure) && !ConflictGate(ExecStep(s.stage)) ==>
            t.status == Pending)
    case Conflict(failure) =>
      if s.rebaseAttempts >= caps.rebase then Fails(s, t) && SameBudgets(s, t)
      else Lives(s, t, Fix, 0, 1, 0) && t.failure == failure
    case NotMergeable =>
      && t.failure == s.failure && t.rebaseAttempts == s.rebaseAttempts + 1 && t.timeoutAttempts == s.timeoutAttempts
      && (if s.rebaseAttempts + 1 >= caps.rebase then Fails(s, t) else Lives(s, t, Security, 0, 1, 0))
    case BaseMoved => t.failure == s.failure && Lives(s, t, MergeVerify, 0, 0, 0)
    case TimedOut(_) =>
      && t.failure == s.failure && t.timeoutAttempts == s.timeoutAttempts + 1 && t.rebaseAttempts == s.rebaseAttempts
      && (if s.timeoutAttempts + 1 >= caps.timeouts then Fails(s, t) else Lives(s, t, s.stage, 0, 0, 1))
    case Paused(_) => t.failure == s.failure && Lives(s, t, s.stage, 0, 0, 0)
    case Wait => t.failure == s.failure && Lives(s, t, s.stage, 0, 0, 0)
    case _ => Terminal(t) && SameBudgets(s, t) && (t.stage == s.stage || t.stage == Done)
  }

  predicate SameBudgets(s: JobState, t: JobState) {
    t.attempts == s.attempts && t.rebaseAttempts == s.rebaseAttempts && t.timeoutAttempts == s.timeoutAttempts
  }

  lemma GateFailureEffect(cap: int, s: JobState, failure: string, detail: Option<Detail>, t: JobState)
    requires t == RetryOrFailState(cap, s, failure, detail)
    ensures (Fails(s, t) && SameBudgets(s, t)) ||
            (s.attempts < cap && Lives(s, t, Fix, 1, 0, 0) && t.failure == failure)
    ensures s.attempts < cap && !(MISSING_WORKTREE <= failure) && !ConflictGate(CurrentStep(s)) ==> t.status == Pending
  {
    hide Classified, ConflictDetected, CurrentEntry, SpendAttemptState, WithCount;
    if !(MISSING_WORKTREE <= failure) {
      var history := if ConflictGate(CurrentStep(s)) then History(s.last.detail) + [CurrentEntry(s)] else [];
      SpendEffect(cap, s, failure, detail, history);
    }
  }

  lemma SpendEffect(cap: int, s: JobState, failure: string, detail: Option<Detail>, history: seq<GateEntry>)
    ensures var t := SpendAttemptState(cap, s, failure, detail, history);
            if s.attempts < cap then Lives(s, t, Fix, 1, 0, 0) && t.failure == failure
            else Fails(s, t) && SameBudgets(s, t)
  {
    hide Classified, WithCount, WithHistory;
  }

  lemma StepEffect(caps: Caps, s: JobState, e: Event)
    requires ValidCaps(caps) && Enabled(s, e)
    ensures Effect(caps, s, e, Next(caps, s, e))
  {
    hide Classified, CanReport, RetryOrFailState;
    if e.GateFailure? {
      var r := s.(status := Running, executing := Some(ExecStep(s.stage)));
      var v := if e.stored.Some? then StoreVerdict(r, e.stored.value) else r;
      GateFailureEffect(caps.fix, v, e.failure, e.detail, Next(caps, s, e));
    }
  }

  /** The effect of step i of a run. */
  lemma RunStep(caps: Caps, states: seq<JobState>, events: seq<Event>, i: nat)
    requires IsRunPrefix(caps, states, events, i) && i < |events|
    ensures Enabled(states[i], events[i]) && Effect(caps, states[i], events[i], states[i + 1])
  {
    assert IsStep(caps, states, events, i);
    StepEffect(caps, states[i], events[i]);
  }

  // ---- budgets -------------------------------------------------------------------

  predicate Budgeted(e: Event) { e.GateFailure? || e.Conflict? || e.NotMergeable? || e.TimedOut? }

  function Plus(n: int): nat { if n < 0 then 0 else n }

  function Budget(caps: Caps): nat
    requires ValidCaps(caps)
  {
    Plus(caps.fix) + caps.rebase + (caps.timeouts - 1)
  }

  function Spent(s: JobState): int { s.attempts + s.rebaseAttempts + s.timeoutAttempts }

  ghost predicate WithinCaps(caps: Caps, s: JobState) {
    && 0 <= s.attempts <= Plus(caps.fix) && 0 <= s.rebaseAttempts && 0 <= s.timeoutAttempts
    && (!Terminal(s) ==>
          && s.rebaseAttempts <= caps.rebase && s.timeoutAttempts <= caps.timeouts - 1
          && s.executing == None && Active(s.stage) && s.status == Pending)
  }

  /** One step that leaves the job alive: a failure spends exactly one credit of exactly one
      budget, everything else (pauses, waits, base moves and progress included) spends none,
      and no budget is ever overdrawn. */
  lemma StepSpends(caps: Caps, s: JobState, e: Event, t: JobState)
    requires ValidCaps(caps) && WithinCaps(caps, s) && Enabled(s, e) && Effect(caps, s, e, t)
    ensures WithinCaps(caps, t)
    ensures !Terminal(t) ==>
              && t.attempts == s.attempts + (if e.GateFailure? then 1 else 0)
              && t.rebaseAttempts == s.rebaseAttempts + (if e.Conflict? || e.NotMergeable? then 1 else 0)
              && t.timeoutAttempts == s.timeoutAttempts + (if e.TimedOut? then 1 else 0)
  {
  }

  lemma {:induction false} RunStaysWithinCaps(caps: Caps, states: seq<JobState>, events: seq<Event>, k: nat)
    requires IsRunPrefix(caps, states, events, k)
    ensures WithinCaps(caps, states[k])
  {
    if k > 0 {
      RunStaysWithinCaps(caps, states, events, k - 1);
      RunStep(caps, states, events, k - 1);
      StepSpends(caps, states[k - 1], events[k - 1], states[k]);
    }
  }

  lemma AliveBefore(caps: Caps, states: seq<JobState>, events: seq<Event>, k: nat)
    requires IsRunPrefix(caps, states, events, k) && k < |events|
    ensures !Terminal(states[k])
  {
    assert IsStep(caps, states, events, k);
  }

  /** The failures survived in the first k steps. */
  ghost function Survived(states: seq<JobState>, events: seq<Event>, k: nat): nat
    requires k <= |events| && |states| == |events| + 1
  {
    if k == 0 then 0
    else Survived(states, events, k - 1) + (if Budgeted(events[k - 1]) && !Terminal(states[k]) then 1 else 0)
  }

  lemma {:induction false} SurvivedIsSpent(caps: Caps, states: seq<JobState>, events: seq<Event>, k: nat)
    requires IsRunPrefix(caps, states, events, k) && !Terminal(states[k])
    ensures Survived(states, events, k) == Spent(states[k])
  {
    if k > 0 {
      AliveBefore(caps, states, events, k - 1);
      SurvivedIsSpent(caps, states, events, k - 1);
      RunStaysWithinCaps(caps, states, events, k - 1);
      RunStep(caps, states, events, k - 1);
      StepSpends(caps, states[k - 1], events[k - 1], states[k]);
    }
  }

  /** Over any interleaving of gate failures, merge conflicts, refused merges and timeouts, at
      most cap + rebase_max + (max_timeouts - 1) failures are survived. */
  lemma SurvivedFailuresAreBounded(caps: Caps, states: seq<JobState>, events: seq<Event>)
    requires IsRun(caps, states, events)
    ensures Survived(states, events, |events|) <= Budget(caps)
  {
    var n := |events|;
    RunStaysWithinCaps(caps, states, events, n);
    if !Terminal(states[n]) {
      SurvivedIsSpent(caps, states, events, n);
    } else if n > 0 {
      AliveBefore(caps, states, events, n - 1);
      RunStaysWithinCaps(caps, states, events, n - 1);
      SurvivedIsSpent(caps, states, events, n - 1);
    }
  }

  // ---- termination -----------------------------------------------------------------

  /** Handlers still to run before the job is done, if nothing fails. */
  function ToGo(stage: Stage): nat {
    match stage
    case Queued => 9
    case Plan => 8
    case Fix => 8
    case Lint => 7
    case Build => 6
    case Test => 5
    case Review => 4
    case MergeVerify => 4
    case Security => 3
    case DesignReview => 2
    case Merge => 2
    case Deploy => 1
    case Done => 0
  }

  /** Decreases at every step but pauses, waits and base moves. */
  function Potential(caps: Caps, s: JobState): int
    requires ValidCaps(caps)
  {
    if Terminal(s) then 0 else 7 * (Budget(caps) - Spent(s)) + ToGo(s.stage)
  }

  /** What an event may cost beyond the potential it uses up. */
  function Free(e: Event): nat {
    match e
    case Paused(_) => 1
    case Wait => 1
    case BaseMoved => 3
    case _ => 0
  }

  /** The free moves among the first k events. */
  function FreeMoves(events: seq<Event>, k: nat): nat
    requires k <= |events|
  {
    if k == 0 then 0 else FreeMoves(events, k - 1) + Free(events[k - 1])
  }

  lemma StepUsesPotential(caps: Caps, s: JobState, e: Event, t: JobState)
    requires ValidCaps(caps) && WithinCaps(caps, s) && !Terminal(s) && Enabled(s, e) && Effect(caps, s, e, t)
    ensures Potential(caps, t) + 1 <= Potential(caps, s) + Free(e)
  {
    StepSpends(caps, s, e, t);
  }

  lemma RunUsesPotential(caps: Caps, states: seq<JobState>, events: seq<Event>, i: nat)
    requires IsRunPrefix(caps, states, events, i) && i < |events|
    ensures Potential(caps, states[i + 1]) + 1 <= Potential(caps, states[i]) + Free(events[i])
  {
    RunStep(caps, states, events, i);
    RunStaysWithinCaps(caps, states, events, i);
    StepUsesPotential(caps, states[i], events[i], states[i + 1]);
  }

  lemma FreshPotential(caps: Caps)
    requires ValidCaps(caps)
    ensures Potential(caps, FreshJob()) == 9 + 7 * Budget(caps)
  {
  }

  lemma {:induction false} StepsAddUp(caps: Caps, states: seq<JobState>, events: seq<Event>, k: nat) returns (left: int)
    requires IsRunPrefix(caps, states, events, k)
    ensures left == Potential(caps, states[k])
    ensures k + left <= 9 + 7 * Budget(caps) + FreeMoves(events, k)
  {
    left := Potential(caps, states[k]);
    if k == 0 {
      FreshPotential(caps);
    } else {
      var before := StepsAddUp(caps, states, events, k - 1);
      RunUsesPotential(caps, states, events, k - 1);
    }
  }

  lemma PotentialIsNatural(caps: Caps, s: JobState)
    requires ValidCaps(caps) && WithinCaps(caps, s)
    ensures Potential(caps, s) >= 0
    ensures !Terminal(s) ==> Enabled(s, Advance(PyNone))
  {
  }

  /** A run is at most 9 handlers plus 7 per budget credit long, not counting pauses, waits for
      a lock or remediation, and base moves; and it never gets stuck: a live job always has a
      next step. So every run with finitely many of those three reaches an end. */
  lemma RunsAreBounded(caps: Caps, states: seq<JobState>, events: seq<Event>)
    requires IsRun(caps, states, events)
    ensures |events| <= 9 + 7 * Budget(caps) + FreeMoves(events, |events|)
    ensures !Terminal(states[|events|]) ==> Enabled(states[|events|], Advance(PyNone))
  {
    var left := StepsAddUp(caps, states, events, |events|);
    RunStaysWithinCaps(caps, states, events, |events|);
    PotentialIsNatural(caps, states[|events|]);
  }

  lemma Extend(caps: Caps, states: seq<JobState>, events: seq<Event>, e: Event)
    returns (states': seq<JobState>, events': seq<Event>)
    requires IsRun(caps, states, events) && Enabled(states[|events|], e)
    ensures IsRun(caps, states', events') && events' == events + [e]
    ensures |states'| == |states| + 1 && forall i :: 0 <= i < |states| ==> states'[i] == states[i]
    ensures Effect(caps, states[|events|], e, states'[|states|])
  {
    states' := states + [Next(caps, states[|events|], e)];
    events' := events + [e];
    forall i: nat | i < |events'| ensures IsStep(caps, states', events', i) {
      if i < |events| { assert IsStep(caps, states, events, i); }
    }
    StepEffect(caps, states[|events|], e);
  }

  /** The last state of a run is a live, unspent job at the given stage. */
  ghost predicate At(states: seq<JobState>, events: seq<Event>, stage: Stage) {
    && |states| == |events| + 1
    && var s := states[|events|];
    s.stage == stage && s.status == Pending && s.executing == None && Spent(s) == 0 && s.attempts == 0 &&
    s.rebaseAttempts == 0
  }

  lemma AdvanceOnce(caps: Caps, states: seq<JobState>, events: seq<Event>, from: Stage)
    returns (states': seq<JobState>, events': seq<Event>)
    requires IsRun(caps, states, events) && At(states, events, from) && Active(from) && from != Deploy
    ensures IsRun(caps, states', events') && events' == events + [Advance(PyNone)]
    ensures At(states', events', NextStage(states[|events|]))
    ensures |states'| == |states| + 1 && forall i :: 0 <= i < |states| ==> states'[i] == states[i]
  {
    states', events' := Extend(caps, states, events, Advance(PyNone));
  }

  ghost predicate Visits(states: seq<JobState>, stages: seq<Stage>) {
    |states| == |stages| && forall i :: 0 <= i < |stages| ==> states[i].stage == stages[i]
  }

  /** A live job at `stage` whose last failure carries the merge-conflict mark. */
  ghost predicate Resolving(s: JobState, stage: Stage) {
    s.stage == stage && s.status == Pending && s.executing == None && CONFLICT_MARK <= s.failure
  }

  ghost predicate SamePrefix(states: seq<JobState>, states': seq<JobState>) {
    |states| <= |states'| && forall i :: 0 <= i < |states| ==> states'[i] == states[i]
  }

  lemma AdvanceResolving(caps: Caps, states: seq<JobState>, events: seq<Event>, from: Stage, to: Stage)
    returns (states': seq<JobState>, events': seq<Event>)
    requires IsRun(caps, states, events) && Resolving(states[|events|], from) && Active(from) && from != Deploy
    requires to == NextStage(states[|events|])
    ensures IsRun(caps, states', events') && |events'| == |events| + 1
    ensures SamePrefix(states, states') && Resolving(states'[|events'|], to) && events' == events + [Advance(PyNone)]
  {
    states', events' := Extend(caps, states, events, Advance(PyNone));
  }

  /** From FIX on a merge conflict to the merge. */
  lemma Resolve(caps: Caps, states: seq<JobState>, events: seq<Event>)
    returns (states': seq<JobState>, events': seq<Event>)
    requires IsRun(caps, states, events) && Resolving(states[|events|], Fix)
    ensures IsRun(caps, states', events') && |events'| == |events| + 4 && SamePrefix(states, states')
    ensures Visits(states'[|events|..], [Fix, MergeVerify, Security, DesignReview, Deploy])
    ensures forall e :: e in events' ==> e in events || e == Advance(PyNone)
  {
    var n := |events|;
    var s1, e1 := AdvanceResolving(caps, states, events, Fix, MergeVerify);
    var s2, e2 := AdvanceResolving(caps, s1, e1, MergeVerify, Security);
    var s3, e3 := AdvanceResolving(caps, s2, e2, Security, DesignReview);
    states', events' := AdvanceResolving(caps, s3, e3, DesignReview, Deploy);
    assert states'[n] == s3[n] == s2[n] == s1[n] == states[n];
    assert states'[n + 1] == s3[n + 1] == s2[n + 1] == s1[n + 1];
    assert states'[n + 2] == s3[n + 2] == s2[n + 2] && states'[n + 3] == s3[n + 3];
  }

  const FORWARD := [Queued, Plan, Lint, Build, Test, Review, Security, DesignReview]

  /** From a fresh job forward, n handlers in. */
  lemma {:induction false} GoForward(caps: Caps, n: nat) returns (states: seq<JobState>, events: seq<Event>)
    requires ValidCaps(caps) && n < |FORWARD|
    ensures IsRun(caps, states, events) && At(states, events, FORWARD[n])
    ensures forall e :: e in events ==> e == Advance(PyNone)
    ensures Visits(states, FORWARD[..n + 1])
  {
    if n == 0 {
      states, events := [FreshJob()], [];
    } else {
      states, events := GoForward(caps, n - 1);
      states, events := AdvanceOnce(caps, states, events, FORWARD[n - 1]);
    }
  }

  /** The proviso is needed: a base branch that keeps moving keeps a job going round through
      MERGE_VERIFY for as long as it likes, spending nothing. */
  lemma {:induction false} MovingBaseNeverEnds(caps: Caps, rounds: nat)
    returns (states: seq<JobState>, events: seq<Event>)
    requires caps.rebase >= 1 && caps.timeouts >= 1
    ensures IsRun(caps, states, events) && |events| >= rounds
    ensures At(states, events, DesignReview)
    ensures forall e :: e in events ==> e.Advance? || e.BaseMoved?
  {
    if rounds == 0 {
      states, events := GoForward(caps, 7);
    } else {
      states, events := MovingBaseNeverEnds(caps, rounds - 1);
      states, events := Extend(caps, states, events, BaseMoved);
      states, events := AdvanceOnce(caps, states, events, MergeVerify);
      states, events := AdvanceOnce(caps, states, events, Security);
    }
  }

  // ---- the gates before a merge --------------------------------------------------------

  predicate Gate(g: Step) {
    g == LintStep || g == TestStep || g == ReviewStep || g == SecurityStep || g == DesignReviewStep
  }

  /** Step i ran the gate g and it passed. */
  ghost predicate Passed(states: seq<JobState>, events: seq<Event>, i: nat, g: Step)
    requires i < |events| && |states| == |events| + 1
  {
    ExecStep(states[i].stage) == g && events[i].Advance?
  }

  /** Step i ran BUILD or FIX, whatever came of it. */
  ghost predicate Edits(states: seq<JobState>, i: nat)
    requires i < |states|
  {
    states[i].stage == Plan || states[i].stage == Fix
  }

  /** Step i ran FIX on a failure that carries the merge-conflict mark. */
  ghost predicate ResolvesConflict(states: seq<JobState>, i: nat)
    requires i < |states|
  {
    states[i].stage == Fix && CONFLICT_MARK <= states[i].failure
  }

  /** After step `from`, before step k, gate g passed. */
  ghost predicate PassedSince(states: seq<JobState>, events: seq<Event>, from: int, k: nat, g: Step)
    requires k <= |events| && |states| == |events| + 1
  {
    exists i: nat :: from < i < k && Passed(states, events, i, g)
  }

  ghost predicate IsLastEdit(states: seq<JobState>, k: nat, at: int)
    requires k <= |states|
  {
    0 <= at < k && Edits(states, at) && forall i :: at < i < k ==> !Edits(states, i)
  }

  /** The gates a job in a stage has behind it since its last ordinary edit. */
  function GatesBehind(stage: Stage): set<Step> {
    match stage
    case Build => {LintStep}
    case Test => {LintStep, TestStep}
    case Review => {LintStep, TestStep, ReviewStep}
    case Security => {LintStep, TestStep, ReviewStep, SecurityStep}
    case DesignReview => {LintStep, TestStep, ReviewStep, SecurityStep, DesignReviewStep}
    case MergeVerify => {LintStep, TestStep, ReviewStep, SecurityStep, DesignReviewStep}
    case _ => {}
  }

  /** The stages a job passes through after a conflict resolution: never LINT to REVIEW. */
  predicate AfterResolution(stage: Stage) {
    stage == Fix || stage == MergeVerify || stage == Security || stage == DesignReview || stage == Deploy ||
    stage == Done
  }

  ghost predicate GateInvariant(states: seq<JobState>, events: seq<Event>, k: nat, at: int)
    requires k <= |events| && |states| == |events| + 1
    requires IsLastEdit(states, k, at)
  {
    && states[k].stage != Queued && (states[k].stage == Plan ==> states[at].stage == Plan)
    && (if ResolvesConflict(states, at)
        then
          && AfterResolution(states[k].stage) && !PassedSince(states, events, at, k, LintStep)
          && (states[k].stage == Security ==> PassedSince(states, events, at, k, MergeVerifyStep))
          && (states[k].stage == DesignReview ==>
                PassedSince(states, events, at, k, MergeVerifyStep) &&
                PassedSince(states, events, at, k, DesignReviewStep))
        else states[k].stage != Fix && !Terminal(states[k]) ==>
               forall g :: g in GatesBehind(states[k].stage) ==> PassedSince(states, events, at, k, g))
  }

  lemma PassedSinceGrows(states: seq<JobState>, events: seq<Event>, from: int, k: nat, g: Step)
    requires k < |events| && |states| == |events| + 1
    ensures PassedSince(states, events, from, k + 1, g) <==>
              PassedSince(states, events, from, k, g) || (from < k && Passed(states, events, k, g))
  {
    if PassedSince(states, events, from, k + 1, g) {
      var i: nat :| from < i < k + 1 && Passed(states, events, i, g);
    }
  }

  /** A gate a job has behind it was there before, or has just passed. */
  lemma GateStep(caps: Caps, s: JobState, e: Event, t: JobState, g: Step)
    requires Enabled(s, e) && Effect(caps, s, e, t) && !Terminal(t) && t.stage != Fix && g in GatesBehind(t.stage)
    requires s.stage != Queued && (s.stage == Fix ==> !(CONFLICT_MARK <= s.failure))
    ensures g in GatesBehind(s.stage) || (ExecStep(s.stage) == g && e.Advance?)
    ensures s.stage != Fix && s.stage != Plan
  {
  }

  /** After a conflict resolution LINT is out of reach until the next edit. */
  lemma ResolutionStep(caps: Caps, s: JobState, e: Event, t: JobState)
    requires Enabled(s, e) && Effect(caps, s, e, t) && AfterResolution(s.stage)
    requires s.stage == Fix ==> CONFLICT_MARK <= s.failure
    ensures AfterResolution(t.stage) && ExecStep(s.stage) != LintStep
    ensures t.stage == Security ==> s.stage == Security || s.stage == DesignReview ||
                                    (s.stage == MergeVerify && e.Advance?)
    ensures t.stage == DesignReview ==> s.stage == DesignReview || (s.stage == Security && e.Advance?)
  {
  }

  lemma StageAfterEdit(caps: Caps, s: JobState, e: Event, t: JobState)
    requires Enabled(s, e) && Effect(caps, s, e, t)
    ensures s.stage != Queued ==> t.stage != Queued
    ensures t.stage == Plan ==> s.stage == Plan || s.stage == Queued
  {
  }

  lemma {:induction false} GatesHold(caps: Caps, states: seq<JobState>, events: seq<Event>, k: nat, at: int)
    requires IsRunPrefix(caps, states, events, k) && IsLastEdit(states, k, at)
    ensures GateInvariant(states, events, k, at)
  {
    var p := k - 1;
    if at < p { GatesHold(caps, states, events, p, at); }
    RunStep(caps, states, events, p);
    GatesHoldStep(caps, states, events, k, at);
  }

  lemma GatesHoldStep(caps: Caps, states: seq<JobState>, events: seq<Event>, k: nat, at: int)
    requires |states| == |events| + 1 && 0 < k <= |events| && IsLastEdit(states, k, at)
    requires Enabled(states[k - 1], events[k - 1]) && Effect(caps, states[k - 1], events[k - 1], states[k])
    requires at < k - 1 ==> IsLastEdit(states, k - 1, at) && GateInvariant(states, events, k - 1, at)
    ensures GateInvariant(states, events, k, at)
  {
    var p := k - 1;
    var s, e, t := states[p], events[p], states[k];
    StageAfterEdit(caps, s, e, t);
    if at < p { assert !Edits(states, p); } else { assert at == p; }
    if ResolvesConflict(states, at) {
      ResolutionStep(caps, s, e, t);
      PassedSinceGrows(states, events, at, p, LintStep);
      PassedSinceGrows(states, events, at, p, MergeVerifyStep);
      PassedSinceGrows(states, events, at, p, DesignReviewStep);
    } else if t.stage != Fix && !Terminal(t) {
      forall g | g in GatesBehind(t.stage) ensures PassedSince(states, events, at, k, g) {
        GateStep(caps, s, e, t, g);
        PassedSinceGrows(states, events, at, p, g);
      }
    }
  }

  lemma {:induction false} SomeEdit(caps: Caps, states: seq<JobState>, events: seq<Event>, k: nat) returns (at: int)
    requires IsRunPrefix(caps, states, events, k)
    requires states[k].stage != Queued && states[k].stage != Plan && states[k].stage != Fix && !Terminal(states[k])
    ensures IsLastEdit(states, k, at)
  {
    var p := k - 1;
    RunStep(caps, states, events, p);
    if Edits(states, p) {
      at := p;
    } else {
      at := SomeEdit(caps, states, events, p);
    }
  }

  /** Whenever the merge runs: lint, tests, review, security and design review have all passed
      since the last BUILD or FIX if and only if that was not the resolution of a merge conflict,
      which restarts at MERGE_VERIFY. After a resolution, the merge has been verified and the
      design reviewed again. */
  lemma MergeGate(caps: Caps, states: seq<JobState>, events: seq<Event>, k: nat) returns (at: int)
    requires IsRunPrefix(caps, states, events, k) && k < |events| && ExecStep(states[k].stage) == MergeStep
    ensures IsLastEdit(states, k, at)
    ensures (forall g :: Gate(g) ==> PassedSince(states, events, at, k, g)) <==> !ResolvesConflict(states, at)
    ensures ResolvesConflict(states, at) ==>
              PassedSince(states, events, at, k, MergeVerifyStep) &&
              PassedSince(states, events, at, k, DesignReviewStep)
  {
    AliveBefore(caps, states, events, k);
    RunStaysWithinCaps(caps, states, events, k);
    at := SomeEdit(caps, states, events, k);
    GatesHold(caps, states, events, k, at);
    assert Gate(LintStep);
  }

  lemma LastEditIsUnique(states: seq<JobState>, k: nat, a: int, b: int)
    requires k <= |states| && IsLastEdit(states, k, a) && IsLastEdit(states, k, b)
    ensures a == b
  {
  }

  /** A merge that resolves one conflict on the way, however it is worded behind the mark,
      reaches the merge again without LINT. */
  lemma ResolutionSkipsLint(caps: Caps, conflict: string)
    returns (states: seq<JobState>, events: seq<Event>, k: nat, at: int)
    requires ValidCaps(caps) && CONFLICT_MARK <= conflict
    ensures IsRun(caps, states, events) && k < |events| && ExecStep(states[k].stage) == MergeStep
    ensures IsLastEdit(states, k, at) && ResolvesConflict(states, at)
    ensures !PassedSince(states, events, at, k, LintStep)
  {
    states, events := GoForward(caps, 7);
    states, events := Extend(caps, states, events, Conflict(conflict));
    at, k := |events|, |events| + 3;
    var inFix := states[at];
    states, events := Resolve(caps, states, events);
    VisitsFrom(states, at, [Fix, MergeVerify, Security, DesignReview, Deploy]);
    assert states[at] == inFix;
    assert IsLastEdit(states, k, at);
    var last := MergeGate(caps, states, events, k);
    LastEditIsUnique(states, k, at, last);
    GatesHold(caps, states, events, k, at);
  }

  // ---- since the last ordinary edit -----------------------------------------------------

  /** No gate reports a failure whose text begins with the merge-conflict mark. */
  ghost predicate Unmarked(events: seq<Event>) {
    forall i :: 0 <= i < |events| && events[i].GateFailure? ==> !(CONFLICT_MARK <= events[i].failure)
  }

  ghost predicate IsLastOrdinaryEdit(states: seq<JobState>, k: nat, at: int)
    requires k <= |states|
  {
    && 0 <= at < k && Edits(states, at) && !ResolvesConflict(states, at)
    && forall i :: at < i < k ==> !Edits(states, i) || ResolvesConflict(states, i)
  }

  /** Like `GatesBehind`, counting a job that waits for a conflict resolution as fully gated. */
  predicate HasBehind(s: JobState, g: Step) {
    if s.stage == Fix then CONFLICT_MARK <= s.failure && Gate(g) else g in GatesBehind(s.stage)
  }

  lemma OrdinaryGateStep(caps: Caps, s: JobState, e: Event, t: JobState, g: Step)
    requires Enabled(s, e) && Effect(caps, s, e, t) && !Terminal(t) && HasBehind(t, g)
    requires e.GateFailure? ==> !(CONFLICT_MARK <= e.failure)
    requires s.stage != Queued
    ensures HasBehind(s, g) || (ExecStep(s.stage) == g && e.Advance?)
    ensures !(s.stage == Plan || (s.stage == Fix && !(CONFLICT_MARK <= s.failure)))
  {
  }

  lemma {:induction false} OrdinaryGatesHold(caps: Caps, states: seq<JobState>, events: seq<Event>, k: nat, at: int,
                                             g: Step)
    requires IsRunPrefix(caps, states, events, k) && Unmarked(events) && IsLastOrdinaryEdit(states, k, at)
    ensures states[k].stage != Queued
    ensures !Terminal(states[k]) && HasBehind(states[k], g) ==> PassedSince(states, events, at, k, g)
  {
    var p := k - 1;
    if at < p { OrdinaryGatesHold(caps, states, events, p, at, g); } else { assert at == p; }
    RunStep(caps, states, events, p);
    AliveBefore(caps, states, events, p);
    StageAfterEdit(caps, states[p], events[p], states[k]);
    PassedSinceGrows(states, events, at, p, g);
    if !Terminal(states[k]) && HasBehind(states[k], g) {
      OrdinaryGateStep(caps, states[p], events[p], states[k], g);
    }
  }

  lemma {:induction false} SomeOrdinaryEdit(caps: Caps, states: seq<JobState>, events: seq<Event>, k: nat)
    returns (at: int)
    requires IsRunPrefix(caps, states, events, k) && Unmarked(events)
    requires !Terminal(states[k]) && (states[k].stage == Lint || states[k].stage == MergeVerify ||
                                      HasBehind(states[k], LintStep))
    ensures IsLastOrdinaryEdit(states, k, at)
  {
    var p := k - 1;
    RunStep(caps, states, events, p);
    AliveBefore(caps, states, events, p);
    if Edits(states, p) && !ResolvesConflict(states, p) {
      at := p;
    } else {
      at := SomeOrdinaryEdit(caps, states, events, p);
    }
  }

  /** As long as no gate words its failure like a merge conflict: whenever the merge runs, every
      gate has passed since the last BUILD or FIX that was not a conflict resolution. */
  lemma MergeGateSinceOrdinaryEdit(caps: Caps, states: seq<JobState>, events: seq<Event>, k: nat) returns (at: int)
    requires IsRunPrefix(caps, states, events, k) && k < |events| && ExecStep(states[k].stage) == MergeStep
    requires Unmarked(events)
    ensures IsLastOrdinaryEdit(states, k, at)
    ensures forall g :: Gate(g) ==> PassedSince(states, events, at, k, g)
  {
    AliveBefore(caps, states, events, k);
    RunStaysWithinCaps(caps, states, events, k);
    at := SomeOrdinaryEdit(caps, states, events, k);
    forall g | Gate(g) ensures PassedSince(states, events, at, k, g) {
      OrdinaryGatesHold(caps, states, events, k, at, g);
    }
  }

  const MARK_NAME := "merge-conflict]"

  /** No invariant check of the project has a file name that begins like the mark. */
  ghost predicate ChecksAreNamedPlainly(events: seq<Event>) {
    forall i, name, rest ::
      0 <= i < |events| && events[i].GateFailure? && events[i].failure == ViolationText(name, rest) &&
      IsCheckName(name) ==>
      !(MARK_NAME <= name)
  }

  /** A text the fixed wordings and the mark cannot both begin. */
  predicate Unlike(p: string) { |p| >= 2 && !(p[0] == '[' && p[1] == 'm') }

  lemma PrefixesAreUnlike(stage: Stage)
    ensures forall p :: p in FailurePrefixes(stage) ==> Unlike(p)
  {
    assert Unlike("[lockfile-drift] ") && Unlike("lint failed (");
    assert Unlike("[symbol-collision] ") && Unlike("[alembic-heads] ") && Unlike("[import-smoke] ");
    assert Unlike("frontend build failed (") && Unlike("tests failed (");
    assert Unlike("gate '") && Unlike("review rejected:") && Unlike("security rejected:") &&
           Unlike("design review rejected:");
    assert Unlike("post-merge validation failed") && Unlike("tests failed after merge (");
    assert Unlike("merge-delta review rejected:") && Unlike("merge-delta security rejected:");
  }

  lemma MarkIs()
    ensures |CONFLICT_MARK| == 16 && CONFLICT_MARK[0] == '[' && CONFLICT_MARK[1] == 'm'
    ensures MARK_NAME == CONFLICT_MARK[1..] && forall i :: 0 <= i < 14 ==> MARK_NAME[i] != ']'
    ensures MARK_NAME[11..14] == "ict"
  {
  }

  /** A failure text with the mark can only come from TEST, and then from an invariant check whose
      file name begins like the mark. */
  lemma MarkedFailureIsACheck(stage: Stage, failure: string)
    requires CanReport(stage, failure)
    ensures CONFLICT_MARK <= failure <==>
            stage == Build && exists name, rest ::
              IsCheckName(name) && MARK_NAME <= name && failure == ViolationText(name, rest)
  {
    hide FailurePrefixes, CONFLICT_MARK, MARK_NAME;
    MarkIs();
    PrefixesAreUnlike(stage);
    if CONFLICT_MARK <= failure {
      if p :| p in FailurePrefixes(stage) && p <= failure { UnlikeTheMark(p, failure); }
      var name, rest :| IsCheckName(name) && failure == ViolationText(name, rest);
      MarkInViolation(name, rest);
    }
    forall name, rest | IsCheckName(name) && MARK_NAME <= name && failure == ViolationText(name, rest)
      ensures CONFLICT_MARK <= failure
    {
      MarkInViolation(name, rest);
    }
  }

  lemma UnlikeTheMark(p: string, failure: string)
    requires Unlike(p) && p <= failure
    ensures !(CONFLICT_MARK <= failure)
  {
    MarkIs();
    assert p[0] == failure[0] && p[1] == failure[1];
  }

  lemma MarkInViolation(name: string, rest: string)
    requires IsCheckName(name)
    ensures CONFLICT_MARK <= ViolationText(name, rest) <==> MARK_NAME <= name
  {
    hide CONFLICT_MARK, MARK_NAME;
    MarkIs();
    var text := ViolationText(name, rest);
    var tail := name + ("] invariant violated:\n" + rest);
    assert text == "[" + tail;
    SameButFirst(text, tail);
    if |name| <= 14 {
      ShortNameIsUnlike(name, tail);
    } else {
      assert tail[..15] == name[..15];
    }
  }

  lemma SameButFirst(text: string, tail: string)
    requires text == "[" + tail
    ensures CONFLICT_MARK <= text <==> MARK_NAME <= tail
  {
    hide CONFLICT_MARK, MARK_NAME;
    MarkIs();
    assert CONFLICT_MARK == ['['] + MARK_NAME;
    assert text[1..] == tail;
    if CONFLICT_MARK <= text {
      assert CONFLICT_MARK == text[..16];
      assert MARK_NAME == tail[..15];
    }
  }

  /** A name too short for the mark ends in the wrong place for it. */
  lemma ShortNameIsUnlike(name: string, tail: string)
    requires IsCheckName(name) && |name| <= 14 && |tail| > |name| && tail[..|name|] == name && tail[|name|] == ']'
    ensures !(MARK_NAME <= tail) && !(MARK_NAME <= name)
  {
    hide CONFLICT_MARK, MARK_NAME;
    MarkIs();
    if |name| == 14 {
      assert name[11..] == tail[11..14];
      assert "ict" != ".sh" && "ict" != ".py" by { assert "ict"[0] == 'i'; }
    }
  }

  lemma {:induction false} PlainNamesUnmark(caps: Caps, states: seq<JobState>, events: seq<Event>)
    requires IsRun(caps, states, events) && ChecksAreNamedPlainly(events)
    ensures Unmarked(events)
  {
    forall i | 0 <= i < |events| && events[i].GateFailure? ensures !(CONFLICT_MARK <= events[i].failure) {
      assert IsStep(caps, states, events, i);
      MarkedFailureIsACheck(states[i].stage, events[i].failure);
    }
  }

  /** Where no invariant check is named like the mark: whenever the merge runs, every gate has
      passed since the last BUILD or FIX that was not a conflict resolution. */
  lemma MergeGateWithPlainNames(caps: Caps, states: seq<JobState>, events: seq<Event>, k: nat) returns (at: int)
    requires IsRunPrefix(caps, states, events, k) && k < |events| && ExecStep(states[k].stage) == MergeStep
    requires ChecksAreNamedPlainly(events)
    ensures IsLastOrdinaryEdit(states, k, at)
    ensures forall g :: Gate(g) ==> PassedSince(states, events, at, k, g)
  {
    PlainNamesUnmark(caps, states, events);
    at := MergeGateSinceOrdinaryEdit(caps, states, events, k);
  }

  /** With any check so named, say `merge-conflict].sh`, it fails: the violation it reports at TEST
      takes the job to the merge with no review ever having passed. */
  lemma MarkedCheckSkipsReview(caps: Caps, name: string, output: string)
    returns (states: seq<JobState>, events: seq<Event>, k: nat)
    requires ValidCaps(caps) && caps.fix >= 1 && IsCheckName(name) && MARK_NAME <= name
    ensures IsRun(caps, states, events) && k < |events| && ExecStep(states[k].stage) == MergeStep
    ensures forall i: nat :: i < |events| ==> !Passed(states, events, i, ReviewStep)
    ensures forall e :: e in events ==> e.Advance? || e == GateFailure(ViolationText(name, output), None, None)
  {
    var failure := ViolationText(name, output);
    MarkInViolation(name, output);
    ViolationIsNotMissing(name, output);
    var early, before := GoForward(caps, 3);
    assert IsViolation(failure);
    var failing, failed := Extend(caps, early, before, GateFailure(failure, None, None));
    states, events := Resolve(caps, failing, failed);
    k := |failed| + 3;
    VisitsFrom(states, |failed|, [Fix, MergeVerify, Security, DesignReview, Deploy]);
    forall i: nat | i < |events| ensures !Passed(states, events, i, ReviewStep) {
      if i < |early| { assert states[i] == failing[i] == early[i] && early[i].stage == FORWARD[i]; }
    }
  }

  lemma ViolationIsNotMissing(name: string, output: string)
    ensures !(MISSING_WORKTREE <= ViolationText(name, output))
  {
    assert ViolationText(name, output)[0] == '[';
    assert MISSING_WORKTREE[0] == 't';
  }

  lemma VisitsFrom(states: seq<JobState>, from: nat, stages: seq<Stage>)
    requires from <= |states| && Visits(states[from..], stages)
    ensures |states| == from + |stages|
    ensures forall i :: from <= i < |states| ==> states[i].stage == stages[i - from]
  {
    forall i | from <= i < |states| ensures states[i].stage == stages[i - from] {
      assert states[from..][i - from] == states[i];
    }
  }
}
