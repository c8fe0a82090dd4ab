/** What a job's failure record says after each way a stage can end (hyqs/pipeline/runner.py), told
    stage by stage: the step it blames, the code, the origin and what is to be done next. */
module FailureRecords {
  import opened PyValues
  import opened JobMachine

  // ---- a failing gate --------------------------------------------------------------------------

  /** The step the record blames, with the code and the origin of a failure there. */
  ghost predicate Blames(stage: Stage, step: Step, code: Code, origin: Origin) {
    || (stage == Lint && step == LintStep && code == LintFailed && origin == CandidateCode)
    || (stage == Build && step == TestStep && code == TestFailed && origin == CandidateCode)
    || (stage == Test && step == ReviewStep && code == GateFailed && origin == AiGate)
    || (stage == Review && step == SecurityStep && code == GateFailed && origin == AiGate)
    || (stage == Security && step == DesignReviewStep && code == GateFailed && origin == AiGate)
    || (stage == DesignReview && step == MergeStep && code == GateFailed && origin == AiGate)
    || (stage == MergeVerify && step == MergeVerifyStep && code == GateFailed && origin == AiGate)
  }

  /** The job is given up where it stands, with this record. */
  ghost predicate GivenUp(s: JobState, t: JobState, code: Code, origin: Origin, disposition: Disposition) {
    && t.status == Failed && t.stage == s.stage && t.executing == None && t.failure == s.failure
    && t.last.code == code && t.last.origin == origin && t.last.disposition == disposition
  }

  /** The record holds what the gate reported, with one number beside it. */
  ghost predicate Notes(t: JobState, given: Option<Detail>, key: string, n: int) {
    && t.last.detail.Some?
    && t.last.detail.value.fields == (if given.Some? then given.value.fields else map[])[key := PyInt(n)]
  }

  /** Gates other than review and security leave the history as the handler reports it. */
  ghost predicate KeepsHistory(s: JobState, given: Option<Detail>, t: JobState) {
    s.stage != Test && s.stage != Review && t.last.detail.Some? ==>
      t.last.detail.value.gateHistory == if given.Some? then given.value.gateHistory else []
  }

  const WORKTREE_TEXT := "tests failed ((none)):\n[worktree-missing]"

  ghost predicate SentToFix(s: JobState, failure: string, detail: Option<Detail>, t: JobState) {
    && t.stage == Fix && t.status == Pending && t.executing == None && t.failure == failure
    && t.attempts == s.attempts + 1 && t.last.disposition == FixWorktree
    && t.last.step.Some? && Blames(s.stage, t.last.step.value, t.last.code, t.last.origin)
    && Notes(t, detail, "attempt", s.attempts + 1) && KeepsHistory(s, detail, t)
  }

  ghost predicate GivenUpAtTheCap(s: JobState, failure: string, detail: Option<Detail>, t: JobState) {
    && t.attempts == s.attempts && GivenUp(s, t, t.last.code, t.last.origin, HumanReview)
    && t.last.step.Some? && Blames(s.stage, t.last.step.value, t.last.code, t.last.origin)
    && Notes(t, detail, "attempts", s.attempts) && KeepsHistory(s, detail, t)
    && |t.error| > |failure| && t.error[|t.error| - |failure|..] == failure
  }

  ghost predicate LeftWithoutWorktree(s: JobState, failure: string, detail: Option<Detail>, t: JobState) {
    && s.stage == Build && t.last.step == Some(TestStep) && t.attempts == s.attempts
    && GivenUp(s, t, WorktreeMissing, Infrastructure, SameStep) && t.last.detail == detail && t.error == failure
  }

  ghost predicate LeftInConflict(s: JobState, detail: Option<Detail>, t: JobState) {
    && (s.stage == Test || s.stage == Review) && t.attempts == s.attempts
    && t.last.step == Some(if s.stage == Test then ReviewStep else SecurityStep)
    && GivenUp(s, t, GateConflict, AiGate, HumanReview) && Notes(t, detail, "attempts", s.attempts)
  }

  /** A failing gate: a job whose worktree is gone is to run the same step again, a contradiction
      between the gates goes to a human, and any other failure sends the job to FIX as long as fewer
      credits are spent than the cap allows. */
  lemma RejectionIsRecorded(caps: Caps, s: JobState, failure: string, detail: Option<Detail>, v: Option<PyValue>)
    requires Enabled(s, GateFailure(failure, detail, v))
    ensures var t := Next(caps, s, GateFailure(failure, detail, v));
            if WORKTREE_TEXT <= failure then LeftWithoutWorktree(s, failure, detail, t)
            else if t.last.code == GateConflict then LeftInConflict(s, detail, t)
            else if s.attempts < caps.fix then SentToFix(s, failure, detail, t)
            else GivenUpAtTheCap(s, failure, detail, t)
  {
    hide RetryOrFailState, FailState, CodeOf, OriginOf, Fingerprint, ConflictDetected;
    var r := Claimed(s, v);
    ReportingStages(s.stage, failure);
    RetryIsRecorded(caps.fix, s, r, failure, detail);
  }

  /** A claimed job, with the verdict the handler stores. */
  ghost function Claimed(s: JobState, v: Option<PyValue>): JobState {
    var r := s.(status := Running, executing := Some(ExecStep(s.stage)));
    if v.Some? then StoreVerdict(r, v.value) else r
  }

  /** The failure begins with the name of a check, a shell or Python file, in brackets. */
  ghost predicate NamesACheck(failure: string) {
    exists name, rest ::
      && failure == "[" + name + "] invariant violated:\n" + rest
      && |name| > 3 && '/' !in name && (name[|name| - 3..] == ".sh" || name[|name| - 3..] == ".py")
  }

  /** Which exits a step out of a stage has: any can advance, run out of time, be paused, fail for
      good or be cancelled; the others belong to their stages. */
  lemma ExitsAre(s: JobState, e: Event)
    ensures (s.status != Pending || s.executing.Some? || s.stage == Merge || s.stage == Done) ==> !Enabled(s, e)
    ensures s.status == Pending && s.executing.None? && s.stage != Merge && s.stage != Done ==>
              match e
              case GateFailure(failure, _, _) => Enabled(s, e) <==> CanReport(s.stage, failure)
              case Conflict(failure) => Enabled(s, e) <==> s.stage == DesignReview && "[merge-conflict]" <= failure
              case NotMergeable => Enabled(s, e) <==> s.stage == DesignReview
              case BaseMoved => Enabled(s, e) <==> s.stage == DesignReview
              case Wait => Enabled(s, e) <==> s.stage == DesignReview || s.stage == Review
              case AlreadySatisfied => Enabled(s, e) <==> s.stage == Plan
              case Handover => Enabled(s, e) <==> s.stage == Deploy
              case _ => Enabled(s, e)
  {
  }

  /** How each gate words its failures; the other steps report none. */
  lemma WordingIs(stage: Stage, failure: string)
    ensures CanReport(stage, failure) <==>
            match stage
            case Lint => "[lockfile-drift] " <= failure || "lint failed (" <= failure
            case Build =>
              || "[symbol-collision] " <= failure || "[alembic-heads] " <= failure || "[import-smoke] " <= failure
              || "frontend build failed (" <= failure || "tests failed (" <= failure || NamesACheck(failure)
            case Test => "gate '" <= failure || "review rejected:" <= failure
            case Review => "gate '" <= failure || "security rejected:" <= failure
            case Security => "gate '" <= failure || "design review rejected:" <= failure
            case DesignReview => "post-merge validation failed" <= failure
            case MergeVerify =>
              || "gate '" <= failure || "tests failed after merge (" <= failure
              || "merge-delta review rejected:" <= failure || "merge-delta security rejected:" <= failure
            case _ => false
  {
    hide NamesACheck, IsViolation, BeginsWithOne;
    ViolationNamesACheck(failure);
    ReportsIff(stage, failure);
    match stage
    case Lint => OneOfTwo("[lockfile-drift] ", "lint failed (", failure);
    case Build => BuildWording(failure);
    case Test => OneOfTwo("gate '", "review rejected:", failure);
    case Review => OneOfTwo("gate '", "security rejected:", failure);
    case Security => OneOfTwo("gate '", "design review rejected:", failure);
    case DesignReview => FirstOrLater(["post-merge validation failed"], failure); FirstOrLater([], failure);
    case MergeVerify => MergeVerifyWording(failure);
    case _ => FirstOrLater([], failure);
  }

  lemma BuildWording(failure: string)
    ensures BeginsWithOne(FailurePrefixes(Build), failure) <==>
            || "[symbol-collision] " <= failure || "[alembic-heads] " <= failure || "[import-smoke] " <= failure
            || "frontend build failed (" <= failure || "tests failed (" <= failure
  {
    hide BeginsWithOne;
    OneOfFive("[symbol-collision] ", "[alembic-heads] ", "[import-smoke] ", "frontend build failed (", "tests failed (",
              failure);
  }

  lemma MergeVerifyWording(failure: string)
    ensures BeginsWithOne(FailurePrefixes(MergeVerify), failure) <==>
            || "gate '" <= failure || "tests failed after merge (" <= failure
            || "merge-delta review rejected:" <= failure || "merge-delta security rejected:" <= failure
  {
    hide BeginsWithOne;
    OneOfFour("gate '", "tests failed after merge (", "merge-delta review rejected:", "merge-delta security rejected:",
              failure);
  }

  lemma ReportsIff(stage: Stage, failure: string)
    ensures CanReport(stage, failure) <==>
            BeginsWithOne(FailurePrefixes(stage), failure) || (stage == Build && IsViolation(failure))
  {
    hide IsViolation;
  }

  lemma OneOfTwo(a: string, b: string, failure: string)
    ensures BeginsWithOne([a, b], failure) <==> a <= failure || b <= failure
  {
    hide BeginsWithOne;
    FirstOrLater([a, b], failure);
    FirstOrLater([b], failure);
    FirstOrLater([], failure);
    assert [a, b][1..] == [b] && [b][1..] == [];
  }

  lemma OneOfFour(a: string, b: string, c: string, d: string, failure: string)
    ensures BeginsWithOne([a, b, c, d], failure) <==> a <= failure || b <= failure || c <= failure || d <= failure
  {
    hide BeginsWithOne;
    FirstOrLater([a, b, c, d], failure);
    FirstOrLater([b, c, d], failure);
    OneOfTwo(c, d, failure);
    assert [a, b, c, d][1..] == [b, c, d] && [b, c, d][1..] == [c, d];
  }

  lemma OneOfFive(a: string, b: string, c: string, d: string, e: string, failure: string)
    ensures BeginsWithOne([a, b, c, d, e], failure) <==>
            a <= failure || b <= failure || c <= failure || d <= failure || e <= failure
  {
    hide BeginsWithOne;
    FirstOrLater([a, b, c, d, e], failure);
    OneOfFour(b, c, d, e, failure);
    assert [a, b, c, d, e][1..] == [b, c, d, e];
  }

  ghost predicate BeginsWithOne(ps: seq<string>, failure: string) { exists p :: p in ps && p <= failure }

  lemma FirstOrLater(ps: seq<string>, failure: string)
    ensures BeginsWithOne(ps, failure) <==>
            |ps| > 0 && (ps[0] <= failure || BeginsWithOne(ps[1..], failure))
  {
    if |ps| > 0 {
      assert ps == [ps[0]] + ps[1..];
      assert ps[0] in ps && forall p :: p in ps[1..] ==> p in ps;
    }
  }

  lemma ViolationNamesACheck(failure: string)
    ensures IsViolation(failure) <==> NamesACheck(failure)
  {
    forall name, rest ensures ViolationText(name, rest) == "[" + name + "] invariant violated:\n" + rest {}
  }

  ghost predicate Reports(stage: Stage) {
    || stage == Lint || stage == Build || stage == Test || stage == Review || stage == Security
    || stage == DesignReview || stage == MergeVerify
  }

  /** Only the test run reports a missing worktree; no other gate's wording begins like it. */
  lemma ReportingStages(stage: Stage, failure: string)
    requires CanReport(stage, failure)
    ensures Reports(stage)
    ensures WORKTREE_TEXT <= failure ==> stage == Build
  {
    if stage != Build {
      var p :| p in FailurePrefixes(stage) && p <= failure;
      PrefixesDiffer(stage);
      DiffersFromTheText(p, failure);
    }
  }

  ghost predicate Differs(p: string) { |p| > 0 && (p[0] != 't' || (|p| > 13 && p[13] != '(')) }

  lemma PrefixesDiffer(stage: Stage)
    requires stage != Build
    ensures forall p :: p in FailurePrefixes(stage) ==> Differs(p)
  {
  }

  lemma DiffersFromTheText(p: string, failure: string)
    requires Differs(p) && p <= failure
    ensures !(WORKTREE_TEXT <= failure)
  {
    var text := WORKTREE_TEXT;
    assert text[0] == 't' && text[13] == '(';
    assert failure[0] == p[0];
    assert |p| > 13 ==> failure[13] == p[13];
  }

  lemma RetryIsRecorded(cap: int, s: JobState, r: JobState, failure: string, detail: Option<Detail>)
    requires Reports(s.stage) && (WORKTREE_TEXT <= failure ==> s.stage == Build)
    requires r.executing == Some(ExecStep(s.stage)) && r.stage == s.stage
    requires r.attempts == s.attempts && r.failure == s.failure
    ensures var t := RetryOrFailState(cap, r, failure, detail);
            if WORKTREE_TEXT <= failure then LeftWithoutWorktree(s, failure, detail, t)
            else if t.last.code == GateConflict then LeftInConflict(s, detail, t)
            else if s.attempts < cap then SentToFix(s, failure, detail, t)
            else GivenUpAtTheCap(s, failure, detail, t)
  {
    hide FailState, SpendAttemptState, LeftInConflict, SentToFix, GivenUpAtTheCap, Blames, WithCount;
    assert WORKTREE_TEXT == MISSING_WORKTREE;
    var prior := if ConflictGate(CurrentStep(r)) then History(r.last.detail) else [];
    var history := if ConflictGate(CurrentStep(r)) then prior + [CurrentEntry(r)] else [];
    if MISSING_WORKTREE <= failure {
      FailureIsKept(r, failure, WorktreeMissing, Infrastructure, SameStep, detail);
    } else if ConflictGate(CurrentStep(r)) && ConflictDetected(prior, CurrentEntry(r)) {
      var noted := WithCount(detail, "attempts", r.attempts).(gateHistory := history);
      ConflictIsRecorded(s, r, detail, noted);
    } else {
      SpendingIsRecorded(cap, s, r, failure, detail, history);
    }
  }

  /** Outside a deployment a failure is recorded as it is reported. */
  lemma FailureIsKept(r: JobState, message: string, code: Code, origin: Origin, disposition: Disposition,
                      detail: Option<Detail>)
    requires code != NoCode
    ensures var t := FailState(r, message, code, origin, disposition, detail);
            && GivenUp(r, t, code, origin, disposition) && t.error == message && t.attempts == r.attempts
            && t.last.step == Some(CurrentStep(r)) && t.last.detail == detail
  {
  }

  lemma ConflictIsRecorded(s: JobState, r: JobState, detail: Option<Detail>, noted: Detail)
    requires r.executing == Some(ExecStep(s.stage)) && r.stage == s.stage && ConflictGate(CurrentStep(r))
    requires r.attempts == s.attempts && r.failure == s.failure
    requires noted.fields == WithCount(detail, "attempts", s.attempts).fields
    ensures LeftInConflict(s, detail, FailState(r, ConflictMessage(r), GateConflict, AiGate, HumanReview, Some(noted)))
    ensures FailState(r, ConflictMessage(r), GateConflict, AiGate, HumanReview, Some(noted)).last.code == GateConflict
  {
    FailureIsKept(r, ConflictMessage(r), GateConflict, AiGate, HumanReview, Some(noted));
  }

  lemma SpendingIsRecorded(cap: int, s: JobState, r: JobState, failure: string, detail: Option<Detail>,
                           history: seq<GateEntry>)
    requires Reports(s.stage) && r.executing == Some(ExecStep(s.stage)) && r.stage == s.stage
    requires r.attempts == s.attempts && r.failure == s.failure && (!ConflictGate(CurrentStep(r)) ==> history == [])
    ensures var t := SpendAttemptState(cap, r, failure, detail, history);
            && t.last.code != GateConflict
            && if s.attempts < cap then SentToFix(s, failure, detail, t) else GivenUpAtTheCap(s, failure, detail, t)
  {
    hide FailState, CodeOf, OriginOf, Blames, WithCount;
    var code := CodeOf(CurrentStep(r));
    StepIsBlamed(s.stage);
    CountIsNoted(detail, "attempts", s.attempts);
    CountIsNoted(detail, "attempt", s.attempts + 1);
    if r.attempts >= cap {
      FailureIsKept(r, GaveUpMessage(failure), code, OriginOf(code), HumanReview,
                    Some(WithHistory(WithCount(detail, "attempts", r.attempts), history)));
    }
  }

  lemma CountIsNoted(given: Option<Detail>, key: string, n: int)
    ensures WithCount(given, key, n).fields == (if given.Some? then given.value.fields else map[])[key := PyInt(n)]
    ensures WithCount(given, key, n).gateHistory == if given.Some? then given.value.gateHistory else []
  {
  }

  lemma StepIsBlamed(stage: Stage)
    requires Reports(stage)
    ensures var code := CodeOf(ExecStep(stage));
            code != NoCode && code != GateConflict && Blames(stage, ExecStep(stage), code, OriginOf(code))
  {
  }

  // ---- the other ways to fail ------------------------------------------------------------------

  /** What is executed out of a stage. */
  ghost predicate Executes(stage: Stage, step: Step) {
    || (stage == Queued && step == PlanStep) || (stage == Plan && step == BuildStep)
    || (stage == Lint && step == LintStep) || (stage == Fix && step == FixStep)
    || (stage == Build && step == TestStep) || (stage == Test && step == ReviewStep)
    || (stage == Review && step == SecurityStep) || (stage == Security && step == DesignReviewStep)
    || ((stage == DesignReview || stage == Merge) && step == MergeStep)
    || (stage == MergeVerify && step == MergeVerifyStep) || (stage == Deploy && step == DeployStep)
    || (stage == Done && step == DoneStep)
  }

  ghost predicate NamesTheStep(s: JobState, t: JobState) {
    t.last.step.Some? && Executes(s.stage, t.last.step.value)
  }

  /** The job is to run the same step again. */
  ghost predicate PutBack(s: JobState, t: JobState, code: Code, origin: Origin) {
    && t.status == Pending && t.stage == s.stage && t.executing == None && t.failure == s.failure
    && t.last.code == code && t.last.origin == origin && t.last.disposition == SameStep
  }

  lemma StepIsTold(s: JobState)
    ensures Executes(s.stage, ExecStep(s.stage))
  {
  }

  /** A failure blames the step that is being executed, whatever the stage says; a job that executes
      none is taken to fail at the step its stage leads to. */
  lemma ExecutedStepIsBlamed(cap: int, s: JobState, failure: string, code: Code, origin: Origin,
                             disposition: Disposition, detail: Option<Detail>)
    ensures var given := FailState(s, failure, code, origin, disposition, detail);
            var t := RetryOrFailState(cap, s, failure, detail);
            && given.last.step.Some? && t.last.step == given.last.step
            && (if s.executing.Some? then t.last.step == s.executing else Executes(s.stage, t.last.step.value))
  {
    hide Fingerprint, ConflictDetected, Classified, CodeOf, OriginOf, WithCount, WithHistory, Executes;
    StepIsTold(s);
  }

  /** A step that overran is run again until the limit is met. */
  lemma TimeoutIsRecorded(caps: Caps, s: JobState, seconds: int)
    requires Enabled(s, TimedOut(seconds))
    ensures var t := Next(caps, s, TimedOut(seconds));
            && NamesTheStep(s, t) && t.timeoutAttempts == s.timeoutAttempts + 1
            && t.attempts == s.attempts && t.rebaseAttempts == s.rebaseAttempts
            && t.last.detail == Some(Detail(map["attempts" := PyInt(t.timeoutAttempts),
                                                "timeout_seconds" := PyInt(seconds)], []))
            && if t.timeoutAttempts < caps.timeouts then PutBack(s, t, StageTimeout, Infrastructure)
               else GivenUp(s, t, StageTimeoutExhausted, Infrastructure, HumanReview)
  {
    StepIsTold(s);
  }

  /** A provider that is out puts the job back at its step and spends nothing. */
  lemma PauseIsRecorded(caps: Caps, s: JobState, pause: Detail)
    requires Enabled(s, Paused(pause))
    ensures var t := Next(caps, s, Paused(pause));
            && NamesTheStep(s, t) && PutBack(s, t, ProviderUnavailable, Provider)
            && t.attempts == s.attempts && t.rebaseAttempts == s.rebaseAttempts
            && t.timeoutAttempts == s.timeoutAttempts && t.last.detail == Some(Detail(pause.fields, []))
  {
    StepIsTold(s);
  }

  /** A merge conflict sends the job to FIX as long as a rebase is left. */
  lemma ConflictIsSentToFix(caps: Caps, s: JobState, failure: string)
    requires Enabled(s, Conflict(failure))
    ensures var t := Next(caps, s, Conflict(failure));
            && t.last.step == Some(MergeStep) && t.attempts == s.attempts && t.timeoutAttempts == s.timeoutAttempts
            && if s.rebaseAttempts < caps.rebase then
                 && t.stage == Fix && t.status == Pending && t.executing == None && t.failure == failure
                 && t.rebaseAttempts == s.rebaseAttempts + 1
                 && t.last.code == MergeConflict && t.last.origin == CandidateCode && t.last.disposition == FixWorktree
                 && t.last.detail == Some(Detail(map["rebase_attempt" := PyInt(t.rebaseAttempts)], []))
               else
                 && t.rebaseAttempts == s.rebaseAttempts
                 && GivenUp(s, t, MergeConflict, CandidateCode, HumanReview)
                 && t.last.detail == Some(Detail(map["rebase_attempts" := PyInt(s.rebaseAttempts)], []))
  {
  }

  /** The letters of the text stand somewhere in the message, capital or small. */
  ghost predicate Mentions(message: string, text: string) {
    exists i :: 0 <= i <= |message| - |text| && ReadsAt(message, i, text)
  }

  ghost predicate ReadsAt(message: string, i: nat, text: string)
    requires i + |text| <= |message|
  {
    forall k :: 0 <= k < |text| ==> IsLetter(message[i + k], text[k])
  }

  ghost predicate IsLetter(c: char, small: char) {
    if 'A' <= c <= 'Z' then small as int == c as int + 32 else small == c
  }

  ghost predicate BlamesTheCode(message: string) {
    || Mentions(message, "cannot find module") || Mentions(message, "could not resolve")
    || Mentions(message, "failed to resolve import") || Mentions(message, "missing package")
    || Mentions(message, "module not found") || Mentions(message, "rollup failed") || Mentions(message, "typeerror")
  }

  /** A failure a handler gives up with is recorded as given; a deployment that gives no code is
      blamed on the code when its message says so, and on the environment otherwise. */
  lemma FatalIsRecorded(caps: Caps, s: JobState, message: string, code: Code, origin: Origin,
                        disposition: Disposition, detail: Option<Detail>)
    requires Enabled(s, Fatal(message, code, origin, disposition, detail))
    ensures var t := Next(caps, s, Fatal(message, code, origin, disposition, detail));
            && NamesTheStep(s, t) && t.error == message && t.last.detail == detail && t.attempts == s.attempts
            && if s.stage != Deploy || code != NoCode then GivenUp(s, t, code, origin, disposition)
               else if BlamesTheCode(message) then
                 GivenUp(s, t, OtherCode("deploy_candidate_error"),
                         if origin == NoOrigin then CandidateCode else origin,
                         if disposition == NoDisposition then FixWorktree else disposition)
               else
                 GivenUp(s, t, OtherCode("deploy_environment_error"),
                         if origin == NoOrigin then OtherOrigin("deployment") else origin,
                         if disposition == NoDisposition then OtherDisposition("remediation_job") else disposition)
  {
    hide BlamesCandidate, BlamesTheCode;
    StepIsTold(s);
    BlameIff(message);
  }

  lemma BlameIff(message: string)
    ensures BlamesCandidate(message) <==> BlamesTheCode(message)
  {
    hide Within, Mentions, Lower;
    var signals := CANDIDATE_SIGNALS;
    forall signal | signal in signals ensures Within(signal, Lower(message)) <==> Mentions(message, signal) {
      MentionsIff(message, signal);
    }
    assert |signals| == 7;
    assert forall k :: 0 <= k < 7 ==> signals[k] in signals;
    assert signals[0] == "cannot find module" && signals[1] == "could not resolve";
    assert signals[2] == "failed to resolve import" && signals[3] == "missing package";
    assert signals[4] == "module not found" && signals[5] == "rollup failed" && signals[6] == "typeerror";
  }

  lemma MentionsIff(message: string, text: string)
    requires forall k :: 0 <= k < |text| ==> text[k] == ' ' || 'a' <= text[k] <= 'z'
    ensures Within(text, Lower(message)) <==> Mentions(message, text)
  {
    var low := Lower(message);
    forall i | 0 <= i <= |message| - |text| ensures StartsAt(text, low, i) <==> ReadsAt(message, i, text) {
      forall k | 0 <= k < |text| ensures low[i + k] == text[k] <==> IsLetter(message[i + k], text[k]) {}
      var part := low[i..i + |text|];
      assert forall k :: 0 <= k < |text| ==> part[k] == low[i + k];
      if forall k :: 0 <= k < |text| ==> low[i + k] == text[k] { assert low[i..i + |text|] == text; }
    }
  }

  // ---- the ways to go on -----------------------------------------------------------------------

  /** A step that succeeds leads on; FIX goes to LINT, or to MERGE_VERIFY when it resolved a conflict. */
  ghost predicate LeadsTo(from: Stage, failure: string, to: Stage) {
    || (from == Queued && to == Plan) || (from == Plan && to == Lint) || (from == Lint && to == Build)
    || (from == Build && to == Test) || (from == Test && to == Review) || (from == Review && to == Security)
    || (from == Security && to == DesignReview) || (from == DesignReview && to == Deploy)
    || (from == MergeVerify && to == Security) || (from == Deploy && to == Done)
    || (from == Fix && to == if "[merge-conflict]" <= failure then MergeVerify else Lint)
  }

  /** The same credits spent, and the same failure on record. */
  ghost predicate NothingSpent(s: JobState, t: JobState) {
    && t.attempts == s.attempts && t.rebaseAttempts == s.rebaseAttempts && t.timeoutAttempts == s.timeoutAttempts
    && t.failure == s.failure
  }

  /** Success: the job moves on, finished after the deployment, and review and security leave their
      verdicts. */
  lemma SuccessIsRecorded(caps: Caps, s: JobState, verdict: PyValue)
    requires Enabled(s, Advance(verdict))
    ensures var t := Next(caps, s, Advance(verdict));
            && LeadsTo(s.stage, s.failure, t.stage) && t.status == (if s.stage == Deploy then Finished else Pending)
            && t.executing == None && NothingSpent(s, t) && t.last == s.last && t.error == s.error
            && t.review == (if s.stage == Test then verdict else s.review)
            && t.securityReview == (if s.stage == Review then verdict else s.securityReview)
  {
  }

  /** The exits that neither succeed nor fail. */
  lemma OtherExitsAre(caps: Caps, s: JobState, e: Event)
    requires Enabled(s, e) && (e.BaseMoved? || e.AlreadySatisfied? || e.Handover? || e.Cancel? || e.Wait?)
    ensures var t := Next(caps, s, e);
            && NothingSpent(s, t) && t.executing == None
            && (e.BaseMoved? ==> t.stage == MergeVerify && t.status == Pending)
            && (e.AlreadySatisfied? ==> t.stage == Done && t.status == Finished)
            && (e.Handover? ==> t.stage == s.stage && t.status == Deploying)
            && (e.Cancel? ==> t.stage == s.stage && t.status == Cancelled)
            && (e.Wait? ==> t.stage == s.stage && t.status == Pending)
            && t.last == if e.Wait? && s.stage == Review then Snapshot(None, NoCode, NoOrigin, NoDisposition, None)
                         else s.last
  {
    hide RetryOrFailState, RebaseConflictState, TimedOutState, PausedState, AdvancedState, NotMergeableState, FailState;
  }

  /** A merge that is refused although nothing conflicts costs a rebase and goes back to the design
      review, or fails without a classification. */
  lemma RefusedMergeIsRecorded(caps: Caps, s: JobState)
    requires Enabled(s, NotMergeable)
    ensures var t := Next(caps, s, NotMergeable);
            && t.rebaseAttempts == s.rebaseAttempts + 1 && t.attempts == s.attempts
            && t.timeoutAttempts == s.timeoutAttempts
            && if t.rebaseAttempts < caps.rebase then
                 t.stage == Security && t.status == Pending && t.failure == s.failure && t.last == s.last
               else GivenUp(s, t, NoCode, NoOrigin, NoDisposition) && t.last.step == Some(MergeStep)
  {
    hide RetryOrFailState, RebaseConflictState, TimedOutState, PausedState, AdvancedState, NotMergeableState, FailState;
    var r := Claimed(s, None);
    RefusedMergeState(caps.rebase, r);
    assert Next(caps, s, NotMergeable) == NotMergeableState(caps.rebase, r);
  }

  lemma RefusedMergeState(rebaseMax: int, r: JobState)
    requires r.executing == Some(MergeStep) && r.status == Running
    ensures var t := NotMergeableState(rebaseMax, r);
            && t.rebaseAttempts == r.rebaseAttempts + 1 && t.attempts == r.attempts
            && t.timeoutAttempts == r.timeoutAttempts
            && if t.rebaseAttempts < rebaseMax then
                 t.stage == Security && t.status == Pending && t.failure == r.failure && t.last == r.last
               else GivenUp(r, t, NoCode, NoOrigin, NoDisposition) && t.last.step == Some(MergeStep)
  {
  }
}
