/** The sliding-window limiter on live probes (hyqs/web/chat_tools.py). Times are readings of the
    monotonic clock. */
module ProbeLimiter {

  function QueueOf(queues: map<int, seq<real>>, project: int): seq<real> {
    if project in queues then queues[project] else []
  }

  /** Drop from the front what is older than the window. */
  function Trim(q: seq<real>, now: real, window: real): (r: seq<real>)
    ensures |r| <= |q| && r == q[|q| - |r|..]
    ensures forall i :: 0 <= i < |q| - |r| ==> now - q[i] > window
    ensures r != [] ==> now - r[0] <= window
  {
    if q != [] && now - q[0] > window then Trim(q[1..], now, window) else q
  }

  function Admits(q: seq<real>, now: real, window: real, maxHits: nat): bool { |Trim(q, now, window)| < maxHits }

  /** The project's queue after a call. */
  function After(q: seq<real>, now: real, window: real, maxHits: nat): seq<real> {
    var kept := Trim(q, now, window);
    if |kept| < maxHits then kept + [now] else kept
  }

  class ProbeRateLimiter {
    const window: real
    const maxHits: nat
    var queues: map<int, seq<real>>

    constructor (window: real, maxHits: nat)
      ensures this.window == window && this.maxHits == maxHits && queues == map[]
    {
      this.window, this.maxHits, this.queues := window, maxHits, map[];
    }

    method Check(project: int, now: real) returns (ok: bool)
      modifies this
      ensures ok == Admits(QueueOf(old(queues), project), now, window, maxHits)
      ensures QueueOf(queues, project) == After(QueueOf(old(queues), project), now, window, maxHits)
      ensures forall p :: p != project ==> QueueOf(queues, p) == QueueOf(old(queues), p)
    {
      var q := QueueOf(queues, project);
      while q != [] && now - q[0] > window
        invariant Trim(q, now, window) == Trim(QueueOf(queues, project), now, window)
        invariant queues == old(queues)
        decreases |q|
      {
        q := q[1..];
      }
      ok := |q| < maxHits;
      if ok {
        q := q + [now];
      }
      queues := queues[project := q];
    }
  }

  // ---- runs ------------------------------------------------------------------------

  datatype Call = Call(project: int, now: real)

  ghost predicate ClockIsMonotone(calls: seq<Call>) {
    forall i, j :: 0 <= i <= j < |calls| ==> calls[i].now <= calls[j].now
  }

  /** The queue of one project after the first k calls, whoever made them. */
  function Queue(calls: seq<Call>, k: nat, project: int, window: real, maxHits: nat): seq<real>
    requires k <= |calls|
  {
    if k == 0 then []
    else
      var before := Queue(calls, k - 1, project, window, maxHits);
      if calls[k - 1].project == project then After(before, calls[k - 1].now, window, maxHits) else before
  }

  predicate Admitted(calls: seq<Call>, k: nat, window: real, maxHits: nat)
    requires k < |calls|
  {
    Admits(Queue(calls, k, calls[k].project, window, maxHits), calls[k].now, window, maxHits)
  }

  /** The limiter driven through a whole run answers as the queues say. */
  method Drive(limiter: ProbeRateLimiter, calls: seq<Call>) returns (answers: seq<bool>)
    requires limiter.queues == map[]
    modifies limiter
    ensures |answers| == |calls|
    ensures forall k :: 0 <= k < |calls| ==> answers[k] == Admitted(calls, k, limiter.window, limiter.maxHits)
  {
    hide Trim, Admits, After;
    answers := [];
    for k := 0 to |calls|
      invariant |answers| == k
      invariant forall p :: QueueOf(limiter.queues, p) == Queue(calls, k, p, limiter.window, limiter.maxHits)
      invariant forall j :: 0 <= j < k ==> answers[j] == Admitted(calls, j, limiter.window, limiter.maxHits)
    {
      var ok := limiter.Check(calls[k].project, calls[k].now);
      answers := answers + [ok];
    }
  }

  /** The calls of a project admitted before k that lie within the window at time `now`. */
  function Recent(calls: seq<Call>, k: nat, project: int, now: real, window: real, maxHits: nat): set<int>
    requires k <= |calls|
  {
    set j | 0 <= j < k && calls[j].project == project && Admitted(calls, j, window, maxHits) &&
            now - calls[j].now <= window
  }

  /** The admitted calls of a project before k, in order. */
  function Admissions(calls: seq<Call>, k: nat, project: int, window: real, maxHits: nat): seq<int>
    requires k <= |calls|
  {
    if k == 0 then []
    else
      var before := Admissions(calls, k - 1, project, window, maxHits);
      if calls[k - 1].project == project && Admitted(calls, k - 1, window, maxHits) then before + [k - 1] else before
  }

  lemma {:induction false} AdmissionsAre(calls: seq<Call>, k: nat, project: int, window: real, maxHits: nat)
    requires k <= |calls|
    ensures var a := Admissions(calls, k, project, window, maxHits);
            && (forall i :: 0 <= i < |a| ==> 0 <= a[i] < k)
            && (forall i, j :: 0 <= i < j < |a| ==> a[i] < a[j])
            && (forall j :: j in a <==> 0 <= j < k && calls[j].project == project &&
                                        Admitted(calls, j, window, maxHits))
  {
    hide Admitted, Queue;
    if k > 0 { AdmissionsAre(calls, k - 1, project, window, maxHits); }
  }

  /** The queue holds the times of the last admissions, and what was dropped from it is out of
      every later window. */
  ghost predicate IsTail(calls: seq<Call>, k: nat, a: seq<int>, q: seq<real>, window: real)
    requires k <= |calls|
  {
    && |q| <= |a|
    && (forall i :: 0 <= i < |a| ==> 0 <= a[i] < k)
    && (forall i :: 0 <= i < |q| ==> q[i] == calls[a[|a| - |q| + i]].now)
    && forall i :: 0 <= i < |a| - |q| ==> Expired(calls, k, a[i], window)
  }

  /** Out of the window of every call from k on. */
  ghost predicate Expired(calls: seq<Call>, k: nat, j: int, window: real)
    requires 0 <= j < |calls|
  {
    forall m :: k <= m < |calls| ==> calls[m].now - calls[j].now > window
  }

  lemma TrimmedIsTail(calls: seq<Call>, k: nat, a: seq<int>, q: seq<real>, window: real)
    requires ClockIsMonotone(calls) && k < |calls| && IsTail(calls, k, a, q, window)
    ensures IsTail(calls, k, a, Trim(q, calls[k].now, window), window)
  {
    var kept := Trim(q, calls[k].now, window);
    forall i | 0 <= i < |a| - |kept| ensures Expired(calls, k, a[i], window) {
      if |a| - |q| <= i {
        assert q[i - (|a| - |q|)] == calls[a[i]].now;
      }
    }
  }

  lemma LaterIsTail(calls: seq<Call>, k: nat, a: seq<int>, q: seq<real>, window: real)
    requires k < |calls| && IsTail(calls, k, a, q, window)
    ensures IsTail(calls, k + 1, a, q, window)
    ensures IsTail(calls, k + 1, a + [k], q + [calls[k].now], window)
  {
  }

  lemma {:induction false} QueueIsTail(calls: seq<Call>, k: nat, project: int, window: real, maxHits: nat)
    requires ClockIsMonotone(calls) && k <= |calls|
    ensures IsTail(calls, k, Admissions(calls, k, project, window, maxHits), Queue(calls, k, project, window, maxHits),
                   window)
  {
    hide IsTail, Trim;
    if k == 0 {
      EmptyIsTail(calls, window);
    } else {
      var a, q := Admissions(calls, k - 1, project, window, maxHits), Queue(calls, k - 1, project, window, maxHits);
      QueueIsTail(calls, k - 1, project, window, maxHits);
      TrimmedIsTail(calls, k - 1, a, q, window);
      LaterIsTail(calls, k - 1, a, q, window);
      LaterIsTail(calls, k - 1, a, Trim(q, calls[k - 1].now, window), window);
    }
  }

  lemma TailIsShorter(calls: seq<Call>, k: nat, a: seq<int>, q: seq<real>, window: real)
    requires k <= |calls| && IsTail(calls, k, a, q, window)
    ensures |q| <= |a|
  {
  }

  lemma EmptyIsTail(calls: seq<Call>, window: real)
    ensures IsTail(calls, 0, [], [], window)
  {
  }

  function ElementsOf<T>(s: seq<T>): set<T> { set x | x in s }

  lemma {:induction false} Enumerated<T>(a: seq<T>)
    requires forall i, j :: 0 <= i < j < |a| ==> a[i] != a[j]
    ensures |ElementsOf(a)| == |a|
  {
    if a != [] {
      var x := a[|a| - 1];
      var init := a[..|a| - 1];
      assert a == init + [x];
      assert ElementsOf(a) == ElementsOf(init) + {x};
      Enumerated(init);
    }
  }

  /** The trimmed queue is, entry by entry, the admissions within the window. */
  lemma TrimmedIsRecent(calls: seq<Call>, k: nat, a: seq<int>, q: seq<real>, window: real, i: nat)
    requires ClockIsMonotone(calls) && k < |calls| && IsTail(calls, k, a, q, window) && i < |a|
    requires forall x, y :: 0 <= x < y < |a| ==> a[x] < a[y]
    ensures calls[k].now - calls[a[i]].now <= window <==> |a| - |Trim(q, calls[k].now, window)| <= i
  {
    hide Trim, IsTail, ClockIsMonotone;
    TrimmedIsTail(calls, k, a, q, window);
    TailIsRecent(calls, k, a, Trim(q, calls[k].now, window), window, i);
  }

  lemma TailIsRecent(calls: seq<Call>, k: nat, a: seq<int>, kept: seq<real>, window: real, i: nat)
    requires ClockIsMonotone(calls) && k < |calls| && IsTail(calls, k, a, kept, window) && i < |a|
    requires forall x, y :: 0 <= x < y < |a| ==> a[x] < a[y]
    requires kept != [] ==> calls[k].now - kept[0] <= window
    ensures calls[k].now - calls[a[i]].now <= window <==> |a| - |kept| <= i
  {
    hide IsTail, Expired, ClockIsMonotone;
    TailAt(calls, k, a, kept, window, i);
    var from := |a| - |kept|;
    if from <= i {
      TailAt(calls, k, a, kept, window, from);
      EarlierIsOlder(calls, a, from, i);
    } else {
      ExpiredIsOut(calls, k, a[i], window);
    }
  }

  lemma TailAt(calls: seq<Call>, k: nat, a: seq<int>, q: seq<real>, window: real, i: nat)
    requires k <= |calls| && IsTail(calls, k, a, q, window) && i < |a|
    ensures |q| <= |a| && 0 <= a[i] < k
    ensures |a| - |q| <= i ==> q[i - (|a| - |q|)] == calls[a[i]].now
    ensures i < |a| - |q| ==> Expired(calls, k, a[i], window)
  {
  }

  lemma EarlierIsOlder(calls: seq<Call>, a: seq<int>, i: nat, j: nat)
    requires ClockIsMonotone(calls) && i <= j < |a| && 0 <= a[i] <= a[j] < |calls|
    ensures calls[a[i]].now <= calls[a[j]].now
  {
  }

  lemma ExpiredIsOut(calls: seq<Call>, k: nat, j: int, window: real)
    requires 0 <= j < |calls| && k < |calls| && Expired(calls, k, j, window)
    ensures calls[k].now - calls[j].now > window
  {
  }

  lemma RecentAre(calls: seq<Call>, k: nat, p: int, window: real, maxHits: nat)
    requires ClockIsMonotone(calls) && k < |calls|
    ensures var a := Admissions(calls, k, p, window, maxHits);
            var kept := Trim(Queue(calls, k, p, window, maxHits), calls[k].now, window);
            && |kept| <= |a|
            && Recent(calls, k, p, calls[k].now, window, maxHits) == ElementsOf(a[|a| - |kept|..])
  {
    hide Queue, Admissions, Trim, Admitted, IsTail, ClockIsMonotone;
    var now := calls[k].now;
    var a := Admissions(calls, k, p, window, maxHits);
    var q := Queue(calls, k, p, window, maxHits);
    var from := |a| - |Trim(q, now, window)|;
    QueueIsTail(calls, k, p, window, maxHits);
    TailIsShorter(calls, k, a, q, window);
    AdmissionsAre(calls, k, p, window, maxHits);
    forall i: nat | i < |a| ensures now - calls[a[i]].now <= window <==> from <= i {
      TrimmedIsRecent(calls, k, a, q, window, i);
    }
    forall j ensures j in Recent(calls, k, p, now, window, maxHits) <==> j in a[from..] {
      InTail(a, from, j);
    }
  }

  lemma InTail<T>(a: seq<T>, from: nat, x: T)
    requires from <= |a|
    ensures x in a[from..] <==> exists i :: from <= i < |a| && a[i] == x
  {
    if x in a[from..] {
      var i :| 0 <= i < |a[from..]| && a[from..][i] == x;
      assert a[from + i] == x;
    }
    forall i | from <= i < |a| ensures a[i] in a[from..] {
      assert a[from..][i - from] == a[i];
    }
  }

  /** A call is refused exactly when `maxHits` calls of the same project were admitted within the
      window before it. */
  lemma RefusedIffWindowIsFull(calls: seq<Call>, k: nat, window: real, maxHits: nat)
    requires ClockIsMonotone(calls) && k < |calls|
    ensures Admitted(calls, k, window, maxHits) <==>
            |Recent(calls, k, calls[k].project, calls[k].now, window, maxHits)| < maxHits
  {
    hide Queue, Admissions, Recent, Trim;
    var p := calls[k].project;
    var a := Admissions(calls, k, p, window, maxHits);
    var kept := Trim(Queue(calls, k, p, window, maxHits), calls[k].now, window);
    RecentAre(calls, k, p, window, maxHits);
    AdmissionsAre(calls, k, p, window, maxHits);
    Enumerated(a[|a| - |kept|..]);
  }

  /** The calls of the same project that were answered yes before k, no longer ago than the window. */
  ghost function YesBefore(calls: seq<Call>, answers: seq<bool>, k: nat, window: real): set<int>
    requires |answers| == |calls| && k < |calls|
  {
    set j | 0 <= j < k && answers[j] && calls[j].project == calls[k].project && calls[k].now - calls[j].now <= window
  }

  /** The answers of a run, told by themselves: yes as long as fewer than `maxHits` were. */
  lemma AnswersAre(calls: seq<Call>, answers: seq<bool>, window: real, maxHits: nat)
    requires ClockIsMonotone(calls) && |answers| == |calls|
    requires forall k :: 0 <= k < |calls| ==> answers[k] == Admitted(calls, k, window, maxHits)
    ensures forall k :: 0 <= k < |calls| ==> (answers[k] <==> |YesBefore(calls, answers, k, window)| < maxHits)
  {
    hide Admitted;
    forall k | 0 <= k < |calls| ensures answers[k] <==> |YesBefore(calls, answers, k, window)| < maxHits {
      RefusedIffWindowIsFull(calls, k, window, maxHits);
      assert YesBefore(calls, answers, k, window) ==
             Recent(calls, k, calls[k].project, calls[k].now, window, maxHits);
    }
  }

  /** Any maxHits + 1 admitted calls of one project span strictly more than the window. */
  lemma AdmittedCallsSpanTheWindow(calls: seq<Call>, at: seq<int>, project: int, window: real, maxHits: nat)
    requires ClockIsMonotone(calls) && |at| == maxHits + 1
    requires forall i :: 0 <= i < |at| ==>
               0 <= at[i] < |calls| && calls[at[i]].project == project && Admitted(calls, at[i], window, maxHits)
    requires forall i, j :: 0 <= i < j < |at| ==> at[i] < at[j]
    ensures calls[at[maxHits]].now - calls[at[0]].now > window
  {
    hide Admitted;
    var k := at[maxHits];
    RefusedIffWindowIsFull(calls, k, window, maxHits);
    if calls[k].now - calls[at[0]].now <= window {
      var recent := Recent(calls, k, project, calls[k].now, window, maxHits);
      var earlier := at[..maxHits];
      forall j | j in earlier ensures j in recent {
        var i :| 0 <= i < maxHits && earlier[i] == j;
        assert at[0] <= at[i] && calls[at[0]].now <= calls[at[i]].now;
      }
      Enumerated(earlier);
      Smaller(ElementsOf(earlier), recent);
    }
  }

  lemma Smaller<T>(s: set<T>, t: set<T>)
    requires s <= t
    ensures |s| <= |t|
  {
    assert t == s + (t - s);
  }

  // ---- one project does not see the others -------------------------------------------------

  function Own(calls: seq<Call>, k: nat, project: int): seq<Call>
    requires k <= |calls|
  {
    if k == 0 then [] else Own(calls, k - 1, project) + (if calls[k - 1].project == project then [calls[k - 1]] else [])
  }

  /** A project's queue is the one its own calls alone would have built: two runs that agree on
      them answer its next call alike. */
  lemma {:induction false} ProjectsAreIndependent(calls: seq<Call>, k: nat, project: int, window: real, maxHits: nat)
    requires k <= |calls|
    ensures var own := Own(calls, k, project);
            Queue(calls, k, project, window, maxHits) == Queue(own, |own|, project, window, maxHits)
  {
    if k > 0 {
      ProjectsAreIndependent(calls, k - 1, project, window, maxHits);
      var before, own := Own(calls, k - 1, project), Own(calls, k, project);
      if calls[k - 1].project == project {
        SamePrefix(before, own, |before|, project, window, maxHits);
      } else {
        assert own == before;
      }
    }
  }

  lemma {:induction false} SamePrefix(a: seq<Call>, b: seq<Call>, k: nat, project: int, window: real, maxHits: nat)
    requires k <= |a| && a <= b
    ensures Queue(a, k, project, window, maxHits) == Queue(b, k, project, window, maxHits)
  {
    if k > 0 { SamePrefix(a, b, k - 1, project, window, maxHits); }
  }
}
