/** The limits of the scope amendment: the decision reports at most 50 rejections
    (hyqs/pipeline/collision.py), the runner looks for limit codes among those
    (hyqs/pipeline/runner.py), and a gate names at most 32 paths (hyqs/pipeline/stages/__init__.py). */
module ScopeLimits {
  import opened PyValues
  import opened Sorting
  import opened ScopeAmendment
  import DependencyMinimizer

  // ---- where an element stands in a sorted list ----------------------------------------

  function CountLess<T>(less: (T, T) -> bool, s: seq<T>, x: T): nat {
    if s == [] then 0 else CountLess(less, s[..|s| - 1], x) + (if less(s[|s| - 1], x) then 1 else 0)
  }

  lemma {:induction false} CountOfConcat<T>(less: (T, T) -> bool, s: seq<T>, t: seq<T>, x: T)
    ensures CountLess(less, s + t, x) == CountLess(less, s, x) + CountLess(less, t, x)
  {
    if t == [] {
      assert s + t == s;
    } else {
      var n := |t| - 1;
      CountOfConcat(less, s, t[..n], x);
      assert (s + t)[..|s + t| - 1] == s + t[..n];
    }
  }

  lemma CountOfOne<T>(less: (T, T) -> bool, y: T, x: T)
    ensures CountLess(less, [y], x) == if less(y, x) then 1 else 0
  {
    assert [y][..0] == [];
  }

  /** Counting does not depend on the order. */
  lemma {:induction false} CountOfPermutation<T>(less: (T, T) -> bool, s: seq<T>, t: seq<T>, x: T)
    requires multiset(s) == multiset(t)
    ensures CountLess(less, s, x) == CountLess(less, t, x)
  {
    assert |s| == |multiset(s)| == |multiset(t)| == |t|;
    if s != [] {
      var n := |s| - 1;
      assert s[n] in multiset(t);
      var j :| 0 <= j < |t| && t[j] == s[n];
      TakenOut(s, t, j);
      CountOfPermutation(less, s[..n], t[..j] + t[j + 1..], x);
      CountOfConcat(less, t[..j], t[j + 1..], x);
      assert t == t[..j] + ([t[j]] + t[j + 1..]);
      CountOfConcat(less, t[..j], [t[j]] + t[j + 1..], x);
      CountOfConcat(less, [t[j]], t[j + 1..], x);
      CountOfOne(less, t[j], x);
    }
  }

  lemma TakenOut<T>(s: seq<T>, t: seq<T>, j: nat)
    requires s != [] && multiset(s) == multiset(t) && j < |t| && t[j] == s[|s| - 1]
    ensures multiset(s[..|s| - 1]) == multiset(t[..j] + t[j + 1..])
  {
    OneOut(s, |s| - 1);
    OneOut(t, j);
    assert s[..|s| - 1] + s[|s|..] == s[..|s| - 1];
  }

  lemma OneOut<T>(s: seq<T>, j: nat)
    requires j < |s|
    ensures multiset(s[..j] + s[j + 1..]) == multiset(s) - multiset{s[j]}
  {
    assert s == s[..j] + [s[j]] + s[j + 1..];
  }

  lemma {:induction false} CountOfPrefix<T>(less: (T, T) -> bool, s: seq<T>, x: T, n: nat)
    requires n <= |s|
    requires forall j :: 0 <= j < |s| ==> (less(s[j], x) <==> j < n)
    ensures CountLess(less, s, x) == n
  {
    if s != [] {
      var m := |s| - 1;
      CountOfPrefix(less, s[..m], x, if n <= m then n else m);
    }
  }

  lemma {:induction false} FirstLimitIndex(s: seq<Rejected>, k: nat) returns (at: nat)
    requires exists i :: k <= i < |s| && IsLimitCode(s[i].reason)
    ensures k <= at < |s| && IsLimitCode(s[at].reason) && forall i :: k <= i < at ==> !IsLimitCode(s[i].reason)
    decreases |s| - k
  {
    if IsLimitCode(s[k].reason) { at := k; } else { at := FirstLimitIndex(s, k + 1); }
  }

  /** In a sorted report the first limit rejection stands behind exactly those that are less than
      the least limit rejection. */
  lemma LimitStandsBehind(s: seq<Rejected>, x: Rejected) returns (at: nat)
    requires Sorted(RejectedLess, s) && x in s && IsLimitCode(x.reason)
    requires forall y :: y in s && IsLimitCode(y.reason) ==> !RejectedLess(y, x)
    ensures at == CountLess(RejectedLess, s, x) && at < |s|
    ensures IsLimitCode(s[at].reason) && forall i :: 0 <= i < at ==> !IsLimitCode(s[i].reason)
  {
    hide IsLimitCode, RejectedLess;
    var i :| 0 <= i < |s| && s[i] == x;
    at := FirstLimitIndex(s, 0);
    forall j | 0 <= j < |s| ensures RejectedLess(s[j], x) <==> j < at {
      assert s[j] in s && s[at] in s;
      if j < at {
        DifferentCodes(s[j], x);
      } else {
        RejectedLessIsWeakOrder();
        assert !RejectedLess(s[j], s[at]);
      }
    }
    CountOfPrefix(RejectedLess, s, x, at);
  }

  lemma DifferentCodes(y: Rejected, x: Rejected)
    requires IsLimitCode(x.reason) && !IsLimitCode(y.reason)
    ensures RejectedLess(y, x) || RejectedLess(x, y)
  {
    StringLessConnected(x.candidate, y.candidate);
    StringLessConnected(x.reason, y.reason);
  }

  // ---- the exact condition ----------------------------------------------------------------

  function CandidateKeys(policy: Policy, req: Request): seq<string> { Keys(policy, RawCandidates(policy, req)) }

  /** The first path, in path order, that a limit cuts off. */
  function FirstCutOff(policy: Policy, req: Request, perCycle: int, cumulative: int): Rejected
    requires 0 <= AcceptedLimit(policy, req, perCycle, cumulative) < |Ranked(policy, req)|
  {
    Rejected(Ranked(policy, req)[AcceptedLimit(policy, req, perCycle, cumulative)].path,
             LimitCode(policy, req, perCycle, cumulative))
  }

  /** The refused candidates that sort before it, by path and then by reason. */
  function RefusedAhead(policy: Policy, req: Request, keys: seq<string>, x: Rejected): set<string> {
    set k | k in keys && Judge(policy, req, k).Refused? && RejectedLess(Judge(policy, req, k).why, x)
  }

  lemma {:induction false} AheadAreCounted(policy: Policy, req: Request, keys: seq<string>, x: Rejected)
    requires forall i, j :: 0 <= i < j < |keys| ==> keys[i] != keys[j]
    ensures |RefusedAhead(policy, req, keys, x)| == CountLess(RejectedLess, RefusedOf(policy, req, keys), x)
  {
    hide Judge, RejectedLess, RefusedAhead;
    if keys == [] {
      NoneAhead(policy, req, x);
    } else {
      var init, k := keys[..|keys| - 1], keys[|keys| - 1];
      AheadAreCounted(policy, req, init, x);
      assert keys == init + [k];
      OneMoreAhead(policy, req, init, k, x);
      if Judge(policy, req, k).Refused? {
        CountOfConcat(RejectedLess, RefusedOf(policy, req, init), [Judge(policy, req, k).why], x);
        CountOfOne(RejectedLess, Judge(policy, req, k).why, x);
      }
    }
  }

  lemma NoneAhead(policy: Policy, req: Request, x: Rejected)
    ensures RefusedAhead(policy, req, [], x) == {}
  {
  }

  lemma OneMoreAhead(policy: Policy, req: Request, init: seq<string>, k: string, x: Rejected)
    requires k !in init
    ensures |RefusedAhead(policy, req, init + [k], x)| == |RefusedAhead(policy, req, init, x)| +
            if Judge(policy, req, k).Refused? && RejectedLess(Judge(policy, req, k).why, x) then 1 else 0
  {
    hide Judge, RejectedLess;
    var before, after := RefusedAhead(policy, req, init, x), RefusedAhead(policy, req, init + [k], x);
    if Judge(policy, req, k).Refused? && RejectedLess(Judge(policy, req, k).why, x) {
      assert after == before + {k};
    } else {
      assert after == before;
    }
  }

  lemma {:induction false} RefusedIsNoLimit(policy: Policy, req: Request, keys: seq<string>)
    ensures forall r :: r in RefusedOf(policy, req, keys) ==> !IsLimitCode(r.reason)
  {
    if keys != [] {
      RefusedIsNoLimit(policy, req, keys[..|keys| - 1]);
      JudgeIsNoLimit(policy, req, keys[|keys| - 1]);
    }
  }

  lemma JudgeIsNoLimit(policy: Policy, req: Request, raw: string)
    ensures Judge(policy, req, raw).Refused? ==> !IsLimitCode(Judge(policy, req, raw).why.reason)
  {
  }

  lemma SurplusStandsBehind(policy: Policy, req: Request, n: nat, code: string)
    requires n < |Ranked(policy, req)| && IsLimitCode(code)
    ensures var surplus := Surplus(Ranked(policy, req)[n..], code);
            var x := Rejected(Ranked(policy, req)[n].path, code);
            && x in surplus && (forall y :: y in surplus ==> IsLimitCode(y.reason) && !RejectedLess(y, x))
  {
    hide IsLimitCode, Ranked, StringLess;
    var ranked := Ranked(policy, req);
    var surplus := Surplus(ranked[n..], code);
    var x := Rejected(ranked[n].path, code);
    assert surplus[0] == x;
    StringLessIrreflexive(code);
    forall y | y in surplus ensures IsLimitCode(y.reason) && !RejectedLess(y, x) {
      var i :| 0 <= i < |surplus| && surplus[i] == y;
      assert y == Rejected(ranked[n + i].path, code);
      RankedBefore(policy, req, n + i);
      StringLessIrreflexive(y.candidate);
    }
  }

  lemma NoneLess<T>(less: (T, T) -> bool, s: seq<T>, x: T)
    requires forall y :: y in s ==> !less(y, x)
    ensures CountLess(less, s, x) == 0
  {
    CountOfPrefix(less, s, x, 0);
  }

  lemma LimitCodeIs(policy: Policy, req: Request, perCycle: int, cumulative: int)
    ensures IsLimitCode(LimitCode(policy, req, perCycle, cumulative))
  {
  }

  /** The first limit rejection of the whole report stands behind exactly the refused candidates
      that sort before the first path cut off. */
  lemma FirstLimitInReport(policy: Policy, req: Request, perCycle: int, cumulative: int) returns (at: nat)
    requires perCycle >= 0 && cumulative >= 0
    requires AcceptedLimit(policy, req, perCycle, cumulative) < |Ranked(policy, req)|
    ensures var all := AllRejected(policy, req, perCycle, cumulative);
            && at < |all| && IsLimitCode(all[at].reason) && (forall i :: 0 <= i < at ==> !IsLimitCode(all[i].reason))
            && at == |RefusedAhead(policy, req, CandidateKeys(policy, req),
                                   FirstCutOff(policy, req, perCycle, cumulative))|
  {
    hide Ranked, LimitCode, RejectedLess, IsLimitCode, RefusedOf, RefusedAhead, Keys;
    var code := LimitCode(policy, req, perCycle, cumulative);
    var n := AcceptedLimit(policy, req, perCycle, cumulative);
    var refused := RefusedOf(policy, req, CandidateKeys(policy, req));
    var surplus := Surplus(Ranked(policy, req)[n..], code);
    var all := AllRejected(policy, req, perCycle, cumulative);
    var x := FirstCutOff(policy, req, perCycle, cumulative);
    LimitCodeIs(policy, req, perCycle, cumulative);
    SurplusStandsBehind(policy, req, n, code);
    RefusedIsNoLimit(policy, req, CandidateKeys(policy, req));
    RejectedLessIsWeakOrder();
    StableSortSorts(RejectedLess, refused + surplus);
    ReportIs(policy, req, perCycle, cumulative, n);
    forall y ensures y in all <==> y in refused || y in surplus { SortedContents(refused + surplus, y); }
    at := LimitStandsBehind(all, x);
    CountOfPermutation(RejectedLess, all, refused + surplus, x);
    CountOfConcat(RejectedLess, refused, surplus, x);
    NoneLess(RejectedLess, surplus, x);
    KeysAreDistinct(policy, req);
    AheadAreCounted(policy, req, CandidateKeys(policy, req), x);
  }

  lemma ReportIs(policy: Policy, req: Request, perCycle: int, cumulative: int, n: nat)
    requires perCycle >= 0 && cumulative >= 0
    requires n == AcceptedLimit(policy, req, perCycle, cumulative) < |Ranked(policy, req)|
    ensures AllRejected(policy, req, perCycle, cumulative) ==
            StableSort(RejectedLess, RefusedOf(policy, req, CandidateKeys(policy, req)) +
                                     Surplus(Ranked(policy, req)[n..], LimitCode(policy, req, perCycle, cumulative)))
  {
    hide Ranked, RefusedOf, StableSort, LimitCode, Keys;
    assert |Cut(Ranked(policy, req), n)| == n;
  }

  lemma KeysAreDistinct(policy: Policy, req: Request)
    ensures var keys := CandidateKeys(policy, req); forall i, j :: 0 <= i < j < |keys| ==> keys[i] != keys[j]
  {
    hide StringLess;
    StringLessIsStrictOrder();
    var cs := RawCandidates(policy, req);
    SortUniqueSorts(StringLess, seq(|cs|, i requires 0 <= i < |cs| => Key(policy, cs[i].0)));
  }

  /** A limit that was hit after something was accepted goes unnoticed, and the cycle keeps what it
      accepted, exactly when at least 50 refused candidates sort before the first path cut off. */
  lemma LimitIsNoticed(policy: Policy, req: Request, perCycle: int, cumulative: int)
    requires perCycle >= 0 && cumulative >= 0
    requires 0 < AcceptedLimit(policy, req, perCycle, cumulative) < |Ranked(policy, req)|
    ensures var d := Decide(policy, req, perCycle, cumulative);
            var ahead := RefusedAhead(policy, req, CandidateKeys(policy, req),
                                      FirstCutOff(policy, req, perCycle, cumulative));
            && (RunnerDecision(d).accepted != [] <==> |ahead| >= REJECTION_LIMIT)
            && RunnerDecision(d).accepted == (if |ahead| >= REJECTION_LIMIT then d.accepted else [])
            && |d.accepted| == AcceptedLimit(policy, req, perCycle, cumulative)
            && (|AllRejected(policy, req, perCycle, cumulative)| <= REJECTION_LIMIT ==>
                  RunnerDecision(d).accepted == [])
            && (RunnerDecision(d).accepted != [] ==> RunnerDecision(d) == d)
  {
    hide Ranked, AllRejected, IsLimitCode, RefusedAhead, LimitCode, CandidateKeys;
    var d := Decide(policy, req, perCycle, cumulative);
    var all := AllRejected(policy, req, perCycle, cumulative);
    var at := FirstLimitInReport(policy, req, perCycle, cumulative);
    if at < REJECTION_LIMIT {
      assert d.rejected[at] == all[at];
      assert d.rejected[at] in d.rejected;
    } else {
      assert forall i :: 0 <= i < |d.rejected| ==> d.rejected[i] == all[i] && i < at;
    }
  }

  // ---- what the gates can ask for ------------------------------------------------------------

  const EVIDENCE_PATH_LIMIT := 32

  /** `authorized_gate_failure`: the failing paths a gate persists, canonical, sorted and each once;
      or nothing, and then no amendment is authorised. */
  function GateEvidence(policy: Policy, raws: seq<string>): Option<seq<string>> {
    if raws == [] || exists r :: r in raws && policy.norm(r).None? then None
    else
      var paths := SortUnique(StringLess, seq(|raws|, i requires 0 <= i < |raws| =>
                                                        assert raws[i] in raws; policy.norm(raws[i]).value));
      if |paths| > EVIDENCE_PATH_LIMIT then None else Some(paths)
  }

  /** A gate authorises exactly when it names something, all of it is canonical paths, and these are
      at most 32; then it persists exactly those. */
  lemma EvidenceIsBounded(policy: Policy, raws: seq<string>)
    ensures GateEvidence(policy, raws).Some? <==>
            raws != [] && (forall r :: r in raws ==> policy.norm(r).Some?)
            && |Normalized(policy, raws)| <= EVIDENCE_PATH_LIMIT
    ensures GateEvidence(policy, raws).Some? ==>
              && StrictlySorted(StringLess, GateEvidence(policy, raws).value)
              && |GateEvidence(policy, raws).value| <= EVIDENCE_PATH_LIMIT
              && forall p :: p in GateEvidence(policy, raws).value <==> p in Normalized(policy, raws)
  {
    hide StringLess, SortUnique;
    if forall r :: r in raws ==> policy.norm(r).Some? {
      var given := seq(|raws|, i requires 0 <= i < |raws| => assert raws[i] in raws; policy.norm(raws[i]).value);
      StringLessIsStrictOrder();
      SortUniqueSorts(StringLess, given);
      var paths := SortUnique(StringLess, given);
      forall p ensures p in given <==> p in Normalized(policy, raws) {
        if p in given {
          var i :| 0 <= i < |given| && given[i] == p;
          assert raws[i] in raws;
        }
        if p in Normalized(policy, raws) {
          var r :| r in raws && policy.norm(r).Some? && policy.norm(r).value == p;
          var i :| 0 <= i < |raws| && raws[i] == r;
          assert given[i] == p;
        }
      }
      SortedAreDistinct(paths);
      DependencyMinimizer.DistinctSize(paths);
      assert DependencyMinimizer.SetOf(paths) == Normalized(policy, raws);
    }
  }

  lemma SortedAreDistinct(paths: seq<string>)
    requires StrictlySorted(StringLess, paths)
    ensures forall i, j :: 0 <= i < j < |paths| ==> paths[i] != paths[j]
  {
    forall i, j | 0 <= i < j < |paths| ensures paths[i] != paths[j] { StringLessIrreflexive(paths[i]); }
  }

  lemma {:induction false} EveryKeyIsJudged(policy: Policy, req: Request, keys: seq<string>)
    ensures |EligibleOf(policy, req, keys)| + |RefusedOf(policy, req, keys)| == |keys|
  {
    if keys != [] { EveryKeyIsJudged(policy, req, keys[..|keys| - 1]); }
  }

  lemma {:induction false} CountIsBounded<T>(less: (T, T) -> bool, s: seq<T>, x: T)
    ensures CountLess(less, s, x) <= |s|
  {
    if s != [] { CountIsBounded(less, s[..|s| - 1], x); }
  }

  /** All or nothing: with at most 50 candidates beyond the limit the cycle grants every eligible
      path, in path order, or, when a limit would cut one off, none. */
  lemma GrantIsAllOrNothing(policy: Policy, req: Request, perCycle: int, cumulative: int)
    requires perCycle >= 0 && cumulative >= 0
    requires |CandidateKeys(policy, req)| <= REJECTION_LIMIT + AcceptedLimit(policy, req, perCycle, cumulative)
    ensures RunnerDecision(Decide(policy, req, perCycle, cumulative)).accepted ==
            if |Ranked(policy, req)| <= AcceptedLimit(policy, req, perCycle, cumulative)
            then Ranked(policy, req) else []
  {
    hide Ranked, RefusedAhead, CandidateKeys, AllRejected, RefusedOf, EligibleOf, LimitCode;
    var n := AcceptedLimit(policy, req, perCycle, cumulative);
    if |Ranked(policy, req)| <= n {
      NothingCutOff(policy, req, perCycle, cumulative);
    } else if n > 0 {
      LimitIsNoticed(policy, req, perCycle, cumulative);
      FewAreAhead(policy, req, FirstCutOff(policy, req, perCycle, cumulative), n);
    } else {
      assert Decide(policy, req, perCycle, cumulative).accepted == [];
    }
  }

  lemma FewAreAhead(policy: Policy, req: Request, x: Rejected, n: nat)
    requires |CandidateKeys(policy, req)| <= REJECTION_LIMIT + n && n < |Ranked(policy, req)|
    ensures |RefusedAhead(policy, req, CandidateKeys(policy, req), x)| < REJECTION_LIMIT
  {
    hide RefusedAhead, Keys, RefusedOf, EligibleOf;
    var keys := CandidateKeys(policy, req);
    KeysAreDistinct(policy, req);
    AheadAreCounted(policy, req, keys, x);
    CountIsBounded(RejectedLess, RefusedOf(policy, req, keys), x);
    EveryKeyIsJudged(policy, req, keys);
    PathLessIsWeakOrder();
    StableSortSorts(PathLess, EligibleOf(policy, req, keys));
  }

  lemma NothingCutOff(policy: Policy, req: Request, perCycle: int, cumulative: int)
    requires perCycle >= 0 && cumulative >= 0
    requires |Ranked(policy, req)| <= AcceptedLimit(policy, req, perCycle, cumulative)
    ensures RunnerDecision(Decide(policy, req, perCycle, cumulative)).accepted == Ranked(policy, req)
  {
    hide Ranked, RefusedOf, Keys, IsLimitCode, LimitCode, StableSort;
    var refused := RefusedOf(policy, req, CandidateKeys(policy, req));
    var all := AllRejected(policy, req, perCycle, cumulative);
    assert Ranked(policy, req)[|Ranked(policy, req)|..] == [];
    assert refused + Surplus([], LimitCode(policy, req, perCycle, cumulative)) == refused;
    RefusedIsNoLimit(policy, req, CandidateKeys(policy, req));
    forall r | r in all ensures !IsLimitCode(r.reason) { SortedContents(refused, r); }
    var d := Decide(policy, req, perCycle, cumulative);
    assert forall r :: r in d.rejected ==> r in all;
  }

  /** As many keys as candidates, at most. */
  lemma KeysAreFew(policy: Policy, req: Request)
    ensures |CandidateKeys(policy, req)| <= |RawCandidates(policy, req)|
  {
    hide RawCandidates;
    var cs := RawCandidates(policy, req);
    SortUniqueIsShort(StringLess, seq(|cs|, i requires 0 <= i < |cs| => Key(policy, cs[i].0)));
  }

  lemma {:induction false} SortUniqueIsShort<T>(less: (T, T) -> bool, xs: seq<T>)
    ensures |SortUnique(less, xs)| <= |xs|
  {
    if xs != [] {
      SortUniqueIsShort(less, xs[1..]);
      InsertIsShort(less, xs[0], SortUnique(less, xs[1..]));
    }
  }

  lemma {:induction false} InsertIsShort<T>(less: (T, T) -> bool, x: T, s: seq<T>)
    ensures |Insert(less, x, s)| <= |s| + 1
  {
    if s != [] { InsertIsShort(less, x, s[1..]); }
  }

  /** So it is for whatever a gate persisted, with nothing else named in evidence. */
  lemma GateGrantIsAllOrNothing(policy: Policy, req: Request, raws: seq<string>)
    requires GateEvidence(policy, raws) == Some(req.event.failingPaths) && req.evidence == []
    ensures RunnerDecision(Decide(policy, req, PER_CYCLE_LIMIT, CUMULATIVE_LIMIT)).accepted ==
            if |Ranked(policy, req)| <= AcceptedLimit(policy, req, PER_CYCLE_LIMIT, CUMULATIVE_LIMIT)
            then Ranked(policy, req) else []
  {
    hide Ranked, AcceptedLimit, Decide, RunnerDecision, CandidateKeys, GateEvidence, Normalized;
    EvidenceIsBounded(policy, raws);
    KeysAreFew(policy, req);
    LimitIsNatural(policy, req);
    GrantIsAllOrNothing(policy, req, PER_CYCLE_LIMIT, CUMULATIVE_LIMIT);
  }

  lemma LimitIsNatural(policy: Policy, req: Request)
    ensures AcceptedLimit(policy, req, PER_CYCLE_LIMIT, CUMULATIVE_LIMIT) >= 0
  {
  }

  // ---- the bound is tight ----------------------------------------------------------------------

  /** A path taken as it stands, with nothing special about it. */
  predicate IsPlain(policy: Policy, path: string) {
    policy.norm(path) == Some(path) && policy.tidy(path) == path && !policy.sensitive(path) && !policy.globbed(path)
  }

  /** `src/aaa.py` and the like. */
  function Name(c: char, n: nat): string { "src/" + seq(n, _ => c) + ".py" }

  ghost predicate TakesNamesPlainly(policy: Policy) {
    policy.lower("failed") == "failed" && forall c: char, n: nat :: 'a' <= c <= 'z' && n > 0 ==>
      IsPlain(policy, Name(c, n))
  }

  /** One small letter, over and over, between `src/` and `.py`. */
  ghost predicate IsRunOfOneLetter(path: string) {
    && |path| > 7 && path[..4] == "src/" && path[|path| - 3..] == ".py" && 'a' <= path[4] <= 'z'
    && forall k :: 4 <= k < |path| - 3 ==> path[k] == path[4]
  }

  /** What is asked of a policy: such paths are taken as they stand. */
  lemma TakesNamesIff(policy: Policy)
    ensures TakesNamesPlainly(policy) <==>
            && policy.lower("failed") == "failed"
            && forall path :: IsRunOfOneLetter(path) ==>
                 && policy.norm(path) == Some(path) && policy.tidy(path) == path
                 && !policy.sensitive(path) && !policy.globbed(path)
  {
    forall c: char, n: nat | 'a' <= c <= 'z' && n > 0 ensures IsRunOfOneLetter(Name(c, n)) {}
    forall path | IsRunOfOneLetter(path) ensures path == Name(path[4], |path| - 7) {
      NameOfRun(path);
    }
  }

  lemma NameOfRun(path: string)
    requires IsRunOfOneLetter(path)
    ensures path == Name(path[4], |path| - 7)
  {
    assert path == path[..4] + path[4..|path| - 3] + path[|path| - 3..];
    assert path[4..|path| - 3] == seq(|path| - 7, _ => path[4]);
  }

  function Ladder(c: char, n: nat): (r: seq<string>)
    ensures |r| == n
  {
    if n == 0 then [] else Ladder(c, n - 1) + [Name(c, n)]
  }

  function ElementsOf<T>(s: seq<T>): set<T> { set x | x in s }

  lemma {:induction false} LadderIs(c: char, n: nat)
    ensures forall s :: s in Ladder(c, n) ==> exists k: nat :: 0 < k <= n && s == Name(c, k)
    ensures |ElementsOf(Ladder(c, n))| == n
  {
    if n > 0 {
      LadderIs(c, n - 1);
      assert ElementsOf(Ladder(c, n)) == ElementsOf(Ladder(c, n - 1)) + {Name(c, n)};
      assert Name(c, n) !in ElementsOf(Ladder(c, n - 1)) by {
        assert forall k: nat :: k < n ==> |Name(c, k)| < |Name(c, n)|;
      }
    }
  }

  lemma LadderIsPlain(policy: Policy, c: char, n: nat)
    requires TakesNamesPlainly(policy) && 'a' <= c <= 'z'
    ensures forall s :: s in Ladder(c, n) ==> IsPlain(policy, s)
  {
    LadderIs(c, n);
  }

  /** Names of a sort before names of z. */
  lemma NamesInOrder(i: nat, j: nat)
    requires i > 0 && j > 0
    ensures StringLess(Name('a', i), Name('z', j)) && !StringLess(Name('z', j), Name('a', i))
    ensures Name('a', i) != Name('z', j)
  {
    var a, z := Name('a', i), Name('z', j);
    assert a[..4] == z[..4] == "src/" && a[4] == 'a' && z[4] == 'z';
    FirstDifference(a, z, 4);
  }

  lemma {:induction false} FirstDifference(s: string, t: string, n: nat)
    requires n < |s| && n < |t| && s[..n] == t[..n] && s[n] < t[n]
    ensures StringLess(s, t) && !StringLess(t, s)
  {
    if n > 0 {
      assert s[0] == s[..n][0] == t[..n][0] == t[0];
      assert s[1..][..n - 1] == s[..n][1..] == t[1..][..n - 1];
      FirstDifference(s[1..], t[1..], n - 1);
    }
  }

  const CUT_OFF := Ladder('z', 9)

  /** A failing test that names n untracked paths and nine that are tracked. */
  function Padded(n: nat): Request {
    Request(GateEvent("test", true, true, true, "failed", Ladder('a', n) + CUT_OFF, []),
            [], [], CUT_OFF, [], [], [], [], [])
  }

  lemma PlainNormalizes(policy: Policy, raws: seq<string>)
    requires forall s :: s in raws ==> IsPlain(policy, s)
    ensures Normalized(policy, raws) == ElementsOf(raws)
  {
  }

  lemma PaddedIsPlain(policy: Policy, n: nat)
    requires TakesNamesPlainly(policy)
    ensures forall s :: s in Ladder('a', n) + CUT_OFF ==> IsPlain(policy, s)
    ensures Normalized(policy, CUT_OFF) == ElementsOf(CUT_OFF)
    ensures Normalized(policy, Ladder('a', n) + CUT_OFF) == ElementsOf(Ladder('a', n) + CUT_OFF)
  {
    hide TakesNamesPlainly, Ladder, IsPlain;
    LadderIsPlain(policy, 'a', n);
    LadderIsPlain(policy, 'z', 9);
    PlainNormalizes(policy, CUT_OFF);
    PlainNormalizes(policy, Ladder('a', n) + CUT_OFF);
  }

  lemma PaddedKeys(policy: Policy, n: nat)
    requires TakesNamesPlainly(policy)
    ensures forall k :: k in CandidateKeys(policy, Padded(n)) <==> k in Ladder('a', n) + CUT_OFF
  {
    hide StringLess, Ladder, CUT_OFF, TakesNamesPlainly;
    StringLessIsStrictOrder();
    PaddedIsPlain(policy, n);
    var failing := Ladder('a', n) + CUT_OFF;
    var cs := RawCandidates(policy, Padded(n));
    PaddedCandidates(policy, n);
    var keyed := seq(|cs|, i requires 0 <= i < |cs| => Key(policy, cs[i].0));
    forall i | 0 <= i < |failing| ensures keyed[i] == failing[i] {
      assert failing[i] in failing;
    }
    assert keyed == failing;
    SortUniqueSorts(StringLess, keyed);
  }

  const TAG := "test:failure_path"

  lemma PaddedCandidates(policy: Policy, n: nat)
    ensures RawCandidates(policy, Padded(n)) == Tagged(Ladder('a', n) + CUT_OFF, TAG)
  {
    assert "test" + ":failure_path" == TAG;
  }

  lemma PaddedTags(policy: Policy, n: nat, k: string)
    requires TakesNamesPlainly(policy) && k in Ladder('a', n) + CUT_OFF
    ensures TAG in Provenance(policy, Padded(n), k)
  {
    hide Ladder, CUT_OFF, TakesNamesPlainly;
    PaddedCandidates(policy, n);
    PaddedIsPlain(policy, n);
    var failing := Ladder('a', n) + CUT_OFF;
    var i :| 0 <= i < |failing| && failing[i] == k;
    assert Tagged(failing, TAG)[i] == (k, TAG);
    assert (k, TAG) in RawCandidates(policy, Padded(n));
    assert TAG in Tags(policy, RawCandidates(policy, Padded(n)), k);
  }

  lemma TagIsFirm(tags: set<string>)
    requires TAG in tags
    ensures !(tags <= {"ai_only_evidence", "current_diff"})
    ensures !(tags <= {"ambiguous_evidence", "speculative_evidence", "current_diff"})
  {
    assert TAG[0] == 't';
  }

  lemma PaddedIsAuthorized(policy: Policy, n: nat)
    requires TakesNamesPlainly(policy)
    ensures IsAuthorized(policy, Padded(n).event)
  {
    assert "failed"[0] == 'f';
  }

  lemma PaddedJudged(policy: Policy, n: nat, k: string)
    requires TakesNamesPlainly(policy) && k in Ladder('a', n) + CUT_OFF
    ensures k !in CUT_OFF ==> Judge(policy, Padded(n), k) == Refused(Rejected(k, "untracked_path"))
    ensures k in CUT_OFF ==> Judge(policy, Padded(n), k).Eligible? && Judge(policy, Padded(n), k).item.path == k
  {
    hide Ladder, CUT_OFF, Provenance, TakesNamesPlainly, IsAuthorized;
    PaddedTags(policy, n, k);
    TagIsFirm(Provenance(policy, Padded(n), k));
    PaddedIsAuthorized(policy, n);
    PaddedIsPlain(policy, n);
  }

  lemma EligibleIsRanked(policy: Policy, req: Request, raw: string)
    requires raw in CandidateKeys(policy, req) && Judge(policy, req, raw).Eligible?
    ensures Judge(policy, req, raw).item in Ranked(policy, req)
  {
    hide Judge, Keys;
    EligibleIsListed(policy, req, CandidateKeys(policy, req), raw);
    var at := RankOf(policy, req, Judge(policy, req, raw).item);
  }

  lemma RankedIsEligible(policy: Policy, req: Request, at: nat) returns (raw: string)
    requires at < |Ranked(policy, req)|
    ensures raw in CandidateKeys(policy, req) && Judge(policy, req, raw) == Eligible(Ranked(policy, req)[at])
  {
    hide Judge, Keys;
    var eligible := EligibleOf(policy, req, CandidateKeys(policy, req));
    PathLessIsWeakOrder();
    StableSortSorts(PathLess, eligible);
    var item := Ranked(policy, req)[at];
    assert item in multiset(Ranked(policy, req));
    assert item in eligible;
    EligibleItems(policy, req, CandidateKeys(policy, req), item);
    raw :| raw in CandidateKeys(policy, req) && Judge(policy, req, raw) == Eligible(item);
  }

  lemma PathsAreFew(items: seq<Accepted>, paths: set<string>)
    requires forall p :: p in paths ==> exists a :: a in items && a.path == p
    ensures |paths| <= |items|
  {
    var all := PathsOf(items);
    assert paths <= all;
    assert all == paths + (all - paths);
  }

  function PathsOf(items: seq<Accepted>): (r: set<string>)
    ensures |r| <= |items| && forall a :: a in items ==> a.path in r
  {
    if items == [] then {} else PathsOf(items[1..]) + {items[0].path}
  }

  lemma PaddedRanks(policy: Policy, n: nat)
    requires TakesNamesPlainly(policy)
    ensures |Ranked(policy, Padded(n))| >= 9
    ensures forall at :: 0 <= at < |Ranked(policy, Padded(n))| ==> Ranked(policy, Padded(n))[at].path in CUT_OFF
  {
    hide Ranked, Judge, Ladder, CUT_OFF, CandidateKeys, TakesNamesPlainly;
    var req := Padded(n);
    LadderIs('z', 9);
    CutOffIs();
    PaddedKeys(policy, n);
    forall p | p in ElementsOf(CUT_OFF) ensures exists a :: a in Ranked(policy, req) && a.path == p {
      PaddedJudged(policy, n, p);
      EligibleIsRanked(policy, req, p);
    }
    PathsAreFew(Ranked(policy, req), ElementsOf(CUT_OFF));
    forall at | 0 <= at < |Ranked(policy, req)| ensures Ranked(policy, req)[at].path in CUT_OFF {
      var raw := RankedIsEligible(policy, req, at);
      PaddedJudged(policy, n, raw);
    }
  }

  lemma CutOffIs()
    ensures CUT_OFF == Ladder('z', 9)
  {
  }

  lemma PaddedLimit(policy: Policy, n: nat)
    ensures AcceptedLimit(policy, Padded(n), PER_CYCLE_LIMIT, CUMULATIVE_LIMIT) == 8
  {
    assert Normalized(policy, []) == {};
  }

  /** Exactly the n untracked paths sort before the first path cut off. */
  lemma PaddedAhead(policy: Policy, n: nat, x: Rejected)
    requires TakesNamesPlainly(policy) && x.candidate in CUT_OFF
    ensures RefusedAhead(policy, Padded(n), CandidateKeys(policy, Padded(n)), x) == ElementsOf(Ladder('a', n))
  {
    hide Judge, Ladder, CUT_OFF, CandidateKeys, TakesNamesPlainly, StringLess, Name;
    var req := Padded(n);
    CutOffIs();
    PaddedKeys(policy, n);
    LadderIs('a', n);
    LadderIs('z', 9);
    var j: nat :| 0 < j <= 9 && x.candidate == Name('z', j);
    forall k ensures k in RefusedAhead(policy, req, CandidateKeys(policy, req), x) <==> k in Ladder('a', n) {
      if k in Ladder('a', n) + CUT_OFF { PaddedJudged(policy, n, k); }
      if k in Ladder('a', n) {
        var i: nat :| 0 < i <= n && k == Name('a', i);
        NamesInOrder(i, j);
        NotCutOff(i);
      }
    }
  }

  lemma NotCutOff(i: nat)
    requires i > 0
    ensures Name('a', i) !in CUT_OFF
  {
    CutOffIs();
    LadderIs('z', 9);
    if Name('a', i) in CUT_OFF {
      var j: nat :| 0 < j <= 9 && Name('a', i) == Name('z', j);
      NamesInOrder(i, j);
    }
  }

  /** Called with n + 9 candidates, nine of them eligible, the evaluation leaves the limit in its
      report exactly up to n = 49: from 59 candidates on, one more than the bound, eight of nine
      would be granted. No gate can name as many. */
  lemma TheBoundIsTight(policy: Policy, n: nat)
    requires TakesNamesPlainly(policy)
    ensures var d := Decide(policy, Padded(n), PER_CYCLE_LIMIT, CUMULATIVE_LIMIT);
            && |d.accepted| == 8 < |Ranked(policy, Padded(n))|
            && RunnerDecision(d).accepted == (if n >= 50 then d.accepted else [])
    ensures n >= 50 ==> forall raws :: GateEvidence(policy, raws) != Some(Padded(n).event.failingPaths)
  {
    hide Ranked, Decide, Ladder, AcceptedLimit, RunnerDecision, RefusedAhead, CandidateKeys, GateEvidence, LimitCode;
    PaddedLimit(policy, n);
    PaddedRanks(policy, n);
    PaddedAhead(policy, n, FirstCutOff(policy, Padded(n), PER_CYCLE_LIMIT, CUMULATIVE_LIMIT));
    LadderIs('a', n);
    LimitIsNoticed(policy, Padded(n), PER_CYCLE_LIMIT, CUMULATIVE_LIMIT);
    forall raws | n >= 50 ensures GateEvidence(policy, raws) != Some(Padded(n).event.failingPaths) {
      EvidenceIsBounded(policy, raws);
      assert |Padded(n).event.failingPaths| > EVIDENCE_PATH_LIMIT;
    }
  }
}
