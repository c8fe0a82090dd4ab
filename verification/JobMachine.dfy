/** The job state machine: the transitions of hyqs/pipeline/runner.py and of the stage
    handlers (hyqs/pipeline/stages/), on the fields they read and write. */
module JobMachine {
  import opened PyValues

  datatype Stage =
    | Queued | Plan | Lint | Build | Test | Fix | Review | Security | DesignReview
    | Merge | MergeVerify | Deploy | Done

  datatype Status = Pending | Running | Deploying | Finished | Failed | Cancelled

  /** What a worker executes out of a stage. */
  datatype Step =
    | PlanStep | BuildStep | LintStep | FixStep | TestStep | ReviewStep | SecurityStep
    | DesignReviewStep | MergeStep | MergeVerifyStep | DeployStep | DoneStep

  datatype Code =
    | NoCode | LintFailed | TestFailed | GateFailed | GateConflict | WorktreeMissing
    | MergeConflict | StageTimeout | StageTimeoutExhausted | ProviderUnavailable | OtherCode(name: string)

  datatype Origin = NoOrigin | CandidateCode | AiGate | Infrastructure | Provider | OtherOrigin(name: string)

  datatype Disposition = NoDisposition | FixWorktree | HumanReview | SameStep | OtherDisposition(name: string)

  datatype GateEntry = GateEntry(gate: Step, fingerprint: PyValue)

  /** `failure_detail`: the key `gate_history` apart from the rest; the code never stores an
      empty history, so an absent key and an empty one are the same. */
  datatype Detail = Detail(fields: map<string, PyValue>, gateHistory: seq<GateEntry>)

  /** `failed_step`, `failure_code`, `failure_origin`, `retry_disposition` and `failure_detail`,
      which every transition that touches one of them writes together. */
  datatype Snapshot = Snapshot(step: Option<Step>, code: Code, origin: Origin, disposition: Disposition,
                               detail: Option<Detail>)

  const NO_FAILURE := Snapshot(None, NoCode, NoOrigin, NoDisposition, None)

  datatype JobState = JobState(
    stage: Stage, status: Status,
    attempts: int, rebaseAttempts: int, timeoutAttempts: int,
    failure: string, last: Snapshot, executing: Option<Step>,
    review: PyValue, securityReview: PyValue, error: string)

  /** `max_attempts` or the project's override; `rebase_max_attempts`; `max_timeouts`. */
  datatype Caps = Caps(fix: int, rebase: int, timeouts: int)

  predicate ValidCaps(caps: Caps) { caps.rebase >= 1 && caps.timeouts >= 1 }

  function ExecStep(stage: Stage): Step {
    match stage
    case Queued => PlanStep
    case Plan => BuildStep
    case Lint => LintStep
    case Fix => FixStep
    case Build => TestStep
    case Test => ReviewStep
    case Review => SecurityStep
    case Security => DesignReviewStep
    case DesignReview => MergeStep
    case Merge => MergeStep
    case MergeVerify => MergeVerifyStep
    case Deploy => DeployStep
    case Done => DoneStep
  }

  /** `job.executing_step or _exec_step(job.stage)` */
  function StepOf(executing: Option<Step>, stage: Stage): Step {
    if executing.Some? then executing.value else ExecStep(stage)
  }

  function CurrentStep(s: JobState): Step { StepOf(s.executing, s.stage) }

  function FreshJob(): JobState {
    JobState(Queued, Pending, 0, 0, 0, "", NO_FAILURE, None, PyNone, PyNone, "")
  }

  // ---- gate verdicts -----------------------------------------------------------

  predicate Truthy(v: PyValue) {
    match v
    case PyNone => false
    case PyInt(n) => n != 0
    case PyStr(s) => s != ""
    case PyList(items) => items != []
    case PyDict(entries) => entries != map[]
  }

  function FindingKeys(findings: seq<PyValue>): seq<PyValue> {
    if findings == [] then []
    else if findings[0].PyDict? then
      var f := findings[0].entries;
      [PyList([Get(f, "severity"), Get(f, "note")])] + FindingKeys(findings[1..])
    else FindingKeys(findings[1..])
  }

  /** `gate_finding_fingerprint`: summary, and severity and note of every finding. */
  function Fingerprint(gateResult: PyValue): PyValue {
    var result := if gateResult.PyDict? then gateResult.entries else map[];
    var findings := Get(result, "findings");
    var summary := Get(result, "summary");
    PyList([if Truthy(summary) then summary else PyStr(""),
            PyList(FindingKeys(if findings.PyList? then findings.items else []))])
  }

  predicate Alternates(a: GateEntry, b: GateEntry, c: GateEntry, d: GateEntry) {
    a.gate != b.gate && a == c && b == d
  }

  /** `gate_conflict_detected`: the last four entries read A, B, A, B. */
  predicate ConflictDetected(history: seq<GateEntry>, current: GateEntry) {
    var entries := history + [current];
    var n := |entries|;
    n >= 4 && Alternates(entries[n - 4], entries[n - 3], entries[n - 2], entries[n - 1])
  }

  function History(detail: Option<Detail>): seq<GateEntry> {
    if detail.Some? then detail.value.gateHistory else []
  }

  // ---- the control-plane transitions ------------------------------------------------

  const MISSING_WORKTREE := "tests failed ((none)):\n[worktree-missing]"
  const CONFLICT_MARK := "[merge-conflict]"

  /** `dict(detail or {})` with one key set; the history as given. */
  function WithCount(detail: Option<Detail>, key: string, n: int): Detail {
    var d := if detail.Some? then detail.value else Detail(map[], []);
    Detail(d.fields[key := PyInt(n)], d.gateHistory)
  }

  function WithHistory(d: Detail, history: seq<GateEntry>): Detail {
    if history == [] then d else d.(gateHistory := history)
  }

  const CANDIDATE_SIGNALS := ["cannot find module", "could not resolve", "failed to resolve import", "missing package",
                              "module not found", "rollup failed", "typeerror"]

  predicate BlamesCandidate(message: string) {
    exists signal :: signal in CANDIDATE_SIGNALS && Within(signal, Lower(message))
  }

  /** A deploy failure that comes unclassified is classified by its message; what is given stays. */
  function Classified(step: Step, message: string, code: Code, origin: Origin, disposition: Disposition)
    : (Code, Origin, Disposition)
  {
    if code == NoCode && step == DeployStep then
      if BlamesCandidate(message) then
        (OtherCode("deploy_candidate_error"), if origin == NoOrigin then CandidateCode else origin,
         if disposition == NoDisposition then FixWorktree else disposition)
      else
        (OtherCode("deploy_environment_error"), if origin == NoOrigin then OtherOrigin("deployment") else origin,
         if disposition == NoDisposition then OtherDisposition("remediation_job") else disposition)
    else (code, origin, disposition)
  }

  function FailState(s: JobState, message: string, code: Code, origin: Origin, disposition: Disposition,
                     detail: Option<Detail>): JobState
  {
    var step := CurrentStep(s);
    var kind := Classified(step, message, code, origin, disposition);
    JobState(s.stage, Failed, s.attempts, s.rebaseAttempts, s.timeoutAttempts, s.failure,
             Snapshot(Some(step), kind.0, kind.1, kind.2, detail), None, s.review, s.securityReview, message)
  }

  function CodeOf(step: Step): Code {
    if step == LintStep then LintFailed else if step == TestStep then TestFailed else GateFailed
  }

  function OriginOf(code: Code): Origin {
    if code == LintFailed || code == TestFailed then CandidateCode else AiGate
  }

  /** The gates whose verdicts can contradict each other. */
  predicate ConflictGate(step: Step) { step == ReviewStep || step == SecurityStep }

  function CurrentEntry(s: JobState): GateEntry {
    var step := CurrentStep(s);
    GateEntry(step, Fingerprint(if step == ReviewStep then s.review else s.securityReview))
  }

  function RetryOrFailState(cap: int, s: JobState, failure: string, detail: Option<Detail>): JobState {
    if MISSING_WORKTREE <= failure then
      FailState(s, failure, WorktreeMissing, Infrastructure, SameStep, detail)
    else
      var step := CurrentStep(s);
      var prior := if ConflictGate(step) then History(s.last.detail) else [];
      var history := if ConflictGate(step) then prior + [CurrentEntry(s)] else [];
      if ConflictGate(step) && ConflictDetected(prior, CurrentEntry(s)) then
        FailState(s, ConflictMessage(s), GateConflict, AiGate, HumanReview,
                  Some(WithCount(detail, "attempts", s.attempts).(gateHistory := history)))
      else SpendAttemptState(cap, s, failure, detail, history)
  }

  /** The FIX budget: give up when it is spent, otherwise spend one and go to FIX. */
  function SpendAttemptState(cap: int, s: JobState, failure: string, detail: Option<Detail>,
                             history: seq<GateEntry>): JobState
  {
    var step := CurrentStep(s);
    var code := CodeOf(step);
    if s.attempts >= cap then
      FailState(s, GaveUpMessage(failure), code, OriginOf(code), HumanReview,
                Some(WithHistory(WithCount(detail, "attempts", s.attempts), history)))
    else
      JobState(Fix, Pending, s.attempts + 1, s.rebaseAttempts, s.timeoutAttempts, failure,
               Snapshot(Some(step), code, OriginOf(code), FixWorktree,
                        Some(WithHistory(WithCount(detail, "attempt", s.attempts + 1), history))),
               None, s.review, s.securityReview, s.error)
  }

  /** The human-readable wrapping of the messages is not modelled beyond its fixed text. */
  function GaveUpMessage(failure: string): string { "gave up: " + failure }

  function ConflictMessage(s: JobState): string {
    "The review and security gates enforce mutually exclusive requirements"
  }

  function RebaseConflictState(rebaseMax: int, s: JobState, failure: string): JobState {
    if s.rebaseAttempts >= rebaseMax then
      FailState(s, GaveUpMessage(failure), MergeConflict, CandidateCode, HumanReview,
                Some(Detail(map["rebase_attempts" := PyInt(s.rebaseAttempts)], [])))
    else
      s.(rebaseAttempts := s.rebaseAttempts + 1, failure := failure,
         last := Snapshot(Some(if s.executing.Some? then s.executing.value else MergeStep),
                          MergeConflict, CandidateCode, FixWorktree,
                          Some(Detail(map["rebase_attempt" := PyInt(s.rebaseAttempts + 1)], []))),
         executing := None, stage := Fix, status := Pending)
  }

  function TimeoutDetail(attempts: int, seconds: int): Detail {
    Detail(map["attempts" := PyInt(attempts), "timeout_seconds" := PyInt(seconds)], [])
  }

  function TimedOutState(maxTimeouts: int, s: JobState, seconds: int): JobState {
    var t := s.(timeoutAttempts := s.timeoutAttempts + 1);
    if t.timeoutAttempts >= maxTimeouts then
      FailState(t, "timed out", StageTimeoutExhausted, Infrastructure, HumanReview,
                Some(TimeoutDetail(t.timeoutAttempts, seconds)))
    else
      t.(last := Snapshot(Some(CurrentStep(t)), StageTimeout, Infrastructure, SameStep,
                          Some(TimeoutDetail(t.timeoutAttempts, seconds))),
         executing := None, status := Pending)
  }

  /** `record_provider_failover` when the worker still owns the job: back to PENDING at the same
      stage. It overwrites the failure snapshot, and with it the gate history. */
  function PausedState(s: JobState, pause: Detail): JobState {
    s.(last := Snapshot(Some(CurrentStep(s)), ProviderUnavailable, Provider, SameStep, Some(Detail(pause.fields, []))),
       executing := None, status := Pending)
  }

  // ---- one step of a job ---------------------------------------------------------------

  /** How an execution of the current step can end, one case per exit of the handlers. */
  datatype Event =
    | Advance(verdict: PyValue)
    | GateFailure(failure: string, detail: Option<Detail>, stored: Option<PyValue>)
    | Conflict(failure: string)
    | NotMergeable
    | BaseMoved
    | TimedOut(seconds: int)
    | Paused(pause: Detail)
    | Wait
    | AlreadySatisfied
    | Handover
    | Fatal(message: string, code: Code, origin: Origin, disposition: Disposition, detail: Option<Detail>)
    | Cancel

  predicate Terminal(s: JobState) { s.status != Pending && s.status != Running }

  predicate Active(stage: Stage) { stage != Merge && stage != Done }

  /** How the gate run out of a stage words its failures. */
  function FailurePrefixes(stage: Stage): seq<string> {
    match stage
    case Lint => ["[lockfile-drift] ", "lint failed ("]
    case Build => ["[symbol-collision] ", "[alembic-heads] ", "[import-smoke] ", "frontend build failed (",
                   "tests failed ("]
    case Test => ["gate '", "review rejected:"]
    case Review => ["gate '", "security rejected:"]
    case Security => ["gate '", "design review rejected:"]
    case DesignReview => ["post-merge validation failed"]
    case MergeVerify => ["gate '", "tests failed after merge (", "merge-delta review rejected:",
                         "merge-delta security rejected:"]
    case _ => []
  }

  /** The name of a file that counts as a project's invariant check. */
  predicate IsCheckName(name: string) {
    |name| > 3 && (name[|name| - 3..] == ".sh" || name[|name| - 3..] == ".py") && '/' !in name
  }

  /** A violated invariant check is reported under its file name. */
  function ViolationText(name: string, rest: string): string { "[" + name + "] invariant violated:\n" + rest }

  ghost predicate IsViolation(failure: string) {
    exists name, rest :: IsCheckName(name) && failure == ViolationText(name, rest)
  }

  ghost predicate CanReport(stage: Stage, failure: string) {
    (exists p :: p in FailurePrefixes(stage) && p <= failure) || (stage == Build && IsViolation(failure))
  }

  /** Which exits the handler of a stage has. */
  ghost predicate Enabled(s: JobState, e: Event) {
    && s.status == Pending && s.executing == None && Active(s.stage)
    && match e
       case GateFailure(failure, _, _) => CanReport(s.stage, failure)
       case Conflict(failure) => s.stage == DesignReview && CONFLICT_MARK <= failure
       case NotMergeable => s.stage == DesignReview
       case BaseMoved => s.stage == DesignReview
       case Wait => s.stage == DesignReview || s.stage == Review
       case AlreadySatisfied => s.stage == Plan
       case Handover => s.stage == Deploy
       case _ => true
  }

  /** Where a successful handler leaves the job. */
  function NextStage(s: JobState): Stage
    requires Active(s.stage)
  {
    match s.stage
    case Queued => Plan
    case Plan => Lint
    case Lint => Build
    case Build => Test
    case Test => Review
    case Review => Security
    case Security => DesignReview
    case DesignReview => Deploy
    case MergeVerify => Security
    case Deploy => Done
    case Fix => if CONFLICT_MARK <= s.failure then MergeVerify else Lint
  }

  /** A review or security handler stores its verdict before it decides. */
  function StoreVerdict(s: JobState, verdict: PyValue): JobState {
    if s.stage == Test then s.(review := verdict)
    else if s.stage == Review then s.(securityReview := verdict)
    else s
  }

  function AdvancedState(s: JobState, verdict: PyValue): JobState
    requires Active(s.stage)
  {
    StoreVerdict(s, verdict).(stage := NextStage(s), status := if s.stage == Deploy then Finished else Pending,
                              executing := None)
  }

  /** GitHub refuses the merge although nothing conflicts locally: a rebase credit is spent. */
  function NotMergeableState(rebaseMax: int, s: JobState): JobState {
    var t := s.(rebaseAttempts := s.rebaseAttempts + 1);
    if t.rebaseAttempts >= rebaseMax then
      FailState(t, "GitHub reported not-mergeable but no local conflict", NoCode, NoOrigin, NoDisposition, None)
    else t.(stage := Security, status := Pending, executing := None)
  }

  /** Waiting for a lock at the merge saves the job as it was. Waiting for a security remediation
      at REVIEW saves nothing, and claiming the job had cleared the failure record of its row. */
  function WaitingState(s: JobState): JobState {
    if s.stage == Review then s.(last := NO_FAILURE, error := "", status := Pending, executing := None)
    else s.(status := Pending, executing := None)
  }

  ghost function Next(caps: Caps, s0: JobState, e: Event): JobState
    requires Enabled(s0, e)
  {
    var s := s0.(status := Running, executing := Some(ExecStep(s0.stage)));
    match e
    case Advance(v) => AdvancedState(s, v)
    case GateFailure(failure, detail, v) =>
      RetryOrFailState(caps.fix, if v.Some? then StoreVerdict(s, v.value) else s, failure, detail)
    case Conflict(failure) => RebaseConflictState(caps.rebase, s, failure)
    case NotMergeable => NotMergeableState(caps.rebase, s)
    case BaseMoved => s.(stage := MergeVerify, status := Pending, executing := None)
    case TimedOut(seconds) => TimedOutState(caps.timeouts, s, seconds)
    case Paused(pause) => PausedState(s, pause)
    case Wait => WaitingState(s)
    case AlreadySatisfied => s.(stage := Done, status := Finished, executing := None)
    case Handover => s.(status := Deploying, executing := None)
    case Fatal(message, code, origin, disposition, detail) => FailState(s, message, code, origin, disposition, detail)
    case Cancel => s.(status := Cancelled, executing := None)
  }

  // ---- the classes -----------------------------------------------------------------

  class Job {
    var stage: Stage
    var status: Status
    var attempts: int
    var rebaseAttempts: int
    var timeoutAttempts: int
    var failure: string
    var lastFailure: Snapshot
    var executingStep: Option<Step>
    var review: PyValue
    var securityReview: PyValue
    var error: string

    constructor ()
      ensures State() == FreshJob()
    {
      stage, status := Queued, Pending;
      attempts, rebaseAttempts, timeoutAttempts := 0, 0, 0;
      failure, error := "", "";
      lastFailure, executingStep := NO_FAILURE, None;
      review, securityReview := PyNone, PyNone;
    }

    ghost function State(): JobState
      reads this
    {
      JobState(stage, status, attempts, rebaseAttempts, timeoutAttempts, failure, lastFailure, executingStep,
               review, securityReview, error)
    }
  }

  class PipelineRunner {
    const maxAttempts: int
    const rebaseMaxAttempts: int
    const maxTimeouts: int

    constructor (maxAttempts: int, rebaseMaxAttempts: int, maxTimeouts: int)
      ensures this.maxAttempts == maxAttempts
      ensures this.rebaseMaxAttempts == if rebaseMaxAttempts < 1 then 1 else rebaseMaxAttempts
      ensures this.maxTimeouts == if maxTimeouts < 1 then 1 else maxTimeouts
    {
      this.maxAttempts := maxAttempts;
      this.rebaseMaxAttempts := if rebaseMaxAttempts < 1 then 1 else rebaseMaxAttempts;
      this.maxTimeouts := if maxTimeouts < 1 then 1 else maxTimeouts;
    }

    method Fail(job: Job, message: string, code: Code, origin: Origin, disposition: Disposition, detail: Option<Detail>)
      modifies job
      ensures job.State() == FailState(old(job.State()), message, code, origin, disposition, detail)
    {
      var step := StepOf(job.executingStep, job.stage);
      var kind := Classified(step, message, code, origin, disposition);
      job.lastFailure := Snapshot(Some(step), kind.0, kind.1, kind.2, detail);
      job.executingStep := None;
      job.status := Failed;
      job.error := message;
    }

    method RetryOrFail(job: Job, failure: string, detail: Option<Detail>, projectCap: Option<int>)
      modifies job
      ensures var cap := if projectCap.Some? then projectCap.value else maxAttempts;
              job.State() == RetryOrFailState(cap, old(job.State()), failure, detail)
    {
      hide FailState, SpendAttemptState, WithCount, ConflictDetected, Fingerprint, OriginOf;
      if MISSING_WORKTREE <= failure {
        Fail(job, failure, WorktreeMissing, Infrastructure, SameStep, detail);
        return;
      }
      var failedStep := StepOf(job.executingStep, job.stage);
      var code := CodeOf(failedStep);
      var gateHistory: seq<GateEntry> := [];
      if code == GateFailed && ConflictGate(failedStep) {
        gateHistory := History(job.lastFailure.detail);
        var gateResult := if failedStep == ReviewStep then job.review else job.securityReview;
        var current := GateEntry(failedStep, Fingerprint(gateResult));
        if ConflictDetected(gateHistory, current) {
          var conflictDetail := WithCount(detail, "attempts", job.attempts).(gateHistory := gateHistory + [current]);
          Fail(job, "The review and security gates enforce mutually exclusive requirements", GateConflict, AiGate,
               HumanReview, Some(conflictDetail));
          return;
        }
        gateHistory := gateHistory + [current];
      }
      SpendAttempt(job, failure, detail, gateHistory, if projectCap.Some? then projectCap.value else maxAttempts);
    }

    method SpendAttempt(job: Job, failure: string, detail: Option<Detail>, gateHistory: seq<GateEntry>, cap: int)
      modifies job
      ensures job.State() == SpendAttemptState(cap, old(job.State()), failure, detail, gateHistory)
    {
      hide FailState, WithHistory, WithCount, CodeOf, OriginOf;
      var failedStep := StepOf(job.executingStep, job.stage);
      var code := CodeOf(failedStep);
      if job.attempts >= cap {
        var exhausted := WithHistory(WithCount(detail, "attempts", job.attempts), gateHistory);
        Fail(job, GaveUpMessage(failure), code, OriginOf(code), HumanReview, Some(exhausted));
        return;
      }
      job.lastFailure := Snapshot(Some(failedStep), code, OriginOf(code), FixWorktree,
                                  Some(WithHistory(WithCount(detail, "attempt", job.attempts + 1), gateHistory)));
      job.executingStep := None;
      job.attempts := job.attempts + 1;
      job.failure := failure;
      job.stage := Fix;
      job.status := Pending;
    }

    method RebaseConflict(job: Job, failure: string)
      modifies job
      ensures job.State() == RebaseConflictState(rebaseMaxAttempts, old(job.State()), failure)
    {
      if job.rebaseAttempts >= rebaseMaxAttempts {
        Fail(job, GaveUpMessage(failure), MergeConflict, CandidateCode, HumanReview,
             Some(Detail(map["rebase_attempts" := PyInt(job.rebaseAttempts)], [])));
        return;
      }
      job.rebaseAttempts := job.rebaseAttempts + 1;
      job.failure := failure;
      job.lastFailure := Snapshot(Some(if job.executingStep.Some? then job.executingStep.value else MergeStep),
                                  MergeConflict, CandidateCode, FixWorktree,
                                  Some(Detail(map["rebase_attempt" := PyInt(job.rebaseAttempts)], [])));
      job.executingStep := None;
      job.stage := Fix;
      job.status := Pending;
    }

    method TimeOut(job: Job, seconds: int)
      modifies job
      ensures job.State() == TimedOutState(maxTimeouts, old(job.State()), seconds)
    {
      job.timeoutAttempts := job.timeoutAttempts + 1;
      if job.timeoutAttempts >= maxTimeouts {
        Fail(job, "timed out", StageTimeoutExhausted, Infrastructure, HumanReview,
             Some(TimeoutDetail(job.timeoutAttempts, seconds)));
        return;
      }
      job.lastFailure := Snapshot(Some(StepOf(job.executingStep, job.stage)),
                                  StageTimeout, Infrastructure, SameStep,
                                  Some(TimeoutDetail(job.timeoutAttempts, seconds)));
      job.executingStep := None;
      job.status := Pending;
    }

    /** `applied` is false when another worker owns the job by now: then nothing changes. */
    method Pause(job: Job, pause: Detail, applied: bool)
      modifies job
      ensures job.State() == if applied then PausedState(old(job.State()), pause) else old(job.State())
    {
      if applied {
        job.lastFailure := Snapshot(Some(StepOf(job.executingStep, job.stage)),
                                    ProviderUnavailable, Provider, SameStep, Some(Detail(pause.fields, [])));
        job.executingStep := None;
        job.status := Pending;
      }
    }

    /** The merge handler's branch for a refusal without a local conflict. */
    method RetryNotMergeable(job: Job)
      modifies job
      ensures job.State() == NotMergeableState(rebaseMaxAttempts, old(job.State()))
    {
      job.rebaseAttempts := job.rebaseAttempts + 1;
      if job.rebaseAttempts >= rebaseMaxAttempts {
        Fail(job, "GitHub reported not-mergeable but no local conflict", NoCode, NoOrigin, NoDisposition, None);
        return;
      }
      job.stage := Security;
      job.status := Pending;
      job.executingStep := None;
    }

    /** What the successful end of each handler writes. */
    method Succeed(job: Job, verdict: PyValue)
      requires Active(job.stage)
      modifies job
      ensures job.State() == AdvancedState(old(job.State()), verdict)
    {
      var from := job.stage;
      match from {
        case Queued => job.stage := Plan;
        case Plan => job.stage := Lint;
        case Lint => job.stage := Build;
        case Build => job.stage := Test;
        case Test => job.review := verdict; job.stage := Review;
        case Review => job.securityReview := verdict; job.stage := Security;
        case Security => job.stage := DesignReview;
        case DesignReview => job.stage := Deploy;
        case MergeVerify => job.stage := Security;
        case Deploy => job.stage := Done;
        case Fix =>
          if CONFLICT_MARK <= job.failure {
            job.stage := MergeVerify;
          } else {
            job.stage := Lint;
          }
      }
      job.status := if from == Deploy then Finished else Pending;
      job.executingStep := None;
    }

    /** One claimed execution: `_advance` marks the step, the handler ends it. */
    method RunStage(job: Job, e: Event, projectCap: Option<int>)
      requires Enabled(job.State(), e)
      modifies job
      ensures var cap := if projectCap.Some? then projectCap.value else maxAttempts;
              job.State() == Next(Caps(cap, rebaseMaxAttempts, maxTimeouts), old(job.State()), e)
    {
      hide CanReport, FailState, RetryOrFailState, RebaseConflictState, TimedOutState, PausedState, NotMergeableState;
      job.status := Running;
      job.executingStep := Some(ExecStep(job.stage));
      match e {
        case Advance(v) => Succeed(job, v);
        case GateFailure(failure, detail, v) =>
          if v.Some? {
            if job.stage == Test {
              job.review := v.value;
            } else if job.stage == Review {
              job.securityReview := v.value;
            }
          }
          RetryOrFail(job, failure, detail, projectCap);
        case Conflict(failure) => RebaseConflict(job, failure);
        case NotMergeable => RetryNotMergeable(job);
        case BaseMoved => job.stage := MergeVerify; job.status := Pending; job.executingStep := None;
        case TimedOut(seconds) => TimeOut(job, seconds);
        case Paused(pause) => Pause(job, pause, true);
        case Wait =>
          if job.stage == Review {
            job.lastFailure, job.error := NO_FAILURE, "";
          }
          job.status, job.executingStep := Pending, None;
        case AlreadySatisfied => job.stage := Done; job.status := Finished; job.executingStep := None;
        case Handover => job.status := Deploying; job.executingStep := None;
        case Fatal(message, code, origin, disposition, detail) => Fail(job, message, code, origin, disposition, detail);
        case Cancel => job.status := Cancelled; job.executingStep := None;
      }
    }
  }
}
