/** What automatic conflict resolution (hyqs/pipeline/conflict_autoresolve.py) does to a file, told by
    the places of its marker lines: which files it resolves, and which lines it keeps. */
module ConflictText {
  import opened PyValues
  import opened ConflictMarkers

  // ---- on marked lines --------------------------------------------------------------------------

  /** The lines a, m and e open, part and close a conflict: nothing between them is a marker, but for
      closing lines in the first block, and the blocks are not empty and of unequal length. */
  ghost predicate Clash(lines: seq<Line>, a: nat, m: nat, e: nat) {
    && a + 1 < m && m + 1 < e < |lines| && m - a != e - m
    && lines[a].marker == Start && lines[m].marker == Mid && lines[e].marker == End
    && (forall k :: a < k < m ==> lines[k].marker == Text || lines[k].marker == End)
    && (forall k :: m < k < e ==> lines[k].marker == Text)
  }

  ghost predicate Opens(lines: seq<Line>, a: nat) { exists m: nat, e: nat :: Clash(lines, a, m, e) }

  /** The line is one of the three that mark a conflict. */
  ghost predicate IsMark(lines: seq<Line>, i: nat) {
    exists a: nat, m: nat, e: nat :: Clash(lines, a, m, e) && (i == a || i == m || i == e)
  }

  lemma ClashIsHunk(lines: seq<Line>, m: nat, e: nat)
    requires Clash(lines, 0, m, e)
    ensures HunkAt(lines).Some? && |PrintOne(HunkAt(lines).value)| == e + 1
    ensures ResolveOne(HunkAt(lines).value) == lines[1..m] + lines[m + 1..e]
  {
    hide HunkAt;
    var c := Hunk(lines[0], lines[1..m], lines[m], lines[m + 1..e], lines[e]);
    assert Legal(c) by {
      forall l | l in c.ours ensures InOurs(l) { var k :| 1 <= k < m && lines[k] == l; }
      forall l | l in c.theirs ensures InTheirs(l) { var k :| m + 1 <= k < e && lines[k] == l; }
    }
    assert lines == PrintOne(c) + lines[e + 1..];
    HunkIsFound(c, lines[e + 1..]);
  }

  lemma HunkIsClash(lines: seq<Line>)
    requires lines != [] && IsStart(lines[0]) && HunkAt(lines).Some?
    ensures Opens(lines, 0)
  {
    hide HunkAt;
    var c := HunkAt(lines).value;
    var m, e := 1 + |c.ours|, 2 + |c.ours| + |c.theirs|;
    var printed := PrintOne(c);
    assert forall k :: 0 <= k < |printed| ==> lines[k] == printed[k];
    forall k | 0 < k < m ensures InOurs(lines[k]) {
      assert printed[k] == c.ours[k - 1];
      assert c.ours[k - 1] in c.ours;
    }
    forall k | m < k < e ensures InTheirs(lines[k]) {
      assert printed[k] == c.theirs[k - m - 1];
      assert c.theirs[k - m - 1] in c.theirs;
    }
    assert Clash(lines, 0, m, e);
  }

  lemma ClashIsUnique(lines: seq<Line>, a: nat, m: nat, e: nat, m': nat, e': nat)
    requires Clash(lines, a, m, e) && Clash(lines, a, m', e')
    ensures m == m' && e == e'
  {
  }

  lemma ClashesShift(lines: seq<Line>, n: nat, a: nat, m: nat, e: nat)
    requires n <= |lines|
    ensures Clash(lines[n..], a, m, e) <==> Clash(lines, a + n, m + n, e + n)
  {
    var rest := lines[n..];
    assert forall k :: 0 <= k < |rest| ==> rest[k] == lines[k + n];
    if Clash(lines, a + n, m + n, e + n) {
      forall k | a < k < m ensures rest[k].marker == Text || rest[k].marker == End { assert rest[k] == lines[k + n]; }
      forall k | m < k < e ensures rest[k].marker == Text { assert rest[k] == lines[k + n]; }
    }
    if Clash(rest, a, m, e) {
      forall k | a + n < k < m + n ensures lines[k].marker == Text || lines[k].marker == End {
        assert rest[k - n] == lines[k];
      }
      forall k | m + n < k < e + n ensures lines[k].marker == Text { assert rest[k - n] == lines[k]; }
    }
  }

  /** The head of the lines: a line that opens nothing, or a whole conflict. */
  ghost predicate IsHead(lines: seq<Line>, n: nat) {
    || (n == 1 && lines != [] && lines[0].marker != Start)
    || exists m: nat, e: nat :: Clash(lines, 0, m, e) && n == e + 1
  }

  lemma HeadHolds(lines: seq<Line>, n: nat)
    requires IsHead(lines, n)
    ensures n <= |lines| && forall k :: 0 < k < n ==> lines[k].marker != Start
  {
  }

  /** Behind the head the conflicts are those of the rest. */
  lemma OpensShift(lines: seq<Line>, n: nat, a: nat)
    requires IsHead(lines, n) && n <= |lines|
    ensures Opens(lines[n..], a) <==> Opens(lines, a + n)
  {
    hide Clash, IsHead;
    if m: nat, e: nat :| Clash(lines[n..], a, m, e) {
      ClashesShift(lines, n, a, m, e);
      assert Clash(lines, a + n, m + n, e + n);
    }
    var b := a + n;
    if m: nat, e: nat :| Clash(lines, b, m, e) {
      LateClash(lines, n, b, m, e);
      ClashesShift(lines, n, a, m - n, e - n);
      assert Clash(lines[n..], a, m - n, e - n);
    }
  }

  lemma MarksShift(lines: seq<Line>, n: nat, i: nat)
    requires IsHead(lines, n) && n <= |lines|
    ensures IsMark(lines[n..], i) <==> IsMark(lines, i + n)
  {
    hide Clash, IsHead;
    if a: nat, m: nat, e: nat :| Clash(lines[n..], a, m, e) && (i == a || i == m || i == e) {
      ClashesShift(lines, n, a, m, e);
      assert Clash(lines, a + n, m + n, e + n);
    }
    if a: nat, m: nat, e: nat :| Clash(lines, a, m, e) && (i + n == a || i + n == m || i + n == e) {
      LateClash(lines, n, a, m, e);
      ClashesShift(lines, n, a - n, m - n, e - n);
      assert Clash(lines[n..], a - n, m - n, e - n);
    }
  }

  /** A conflict that reaches beyond the head begins beyond it. */
  lemma LateClash(lines: seq<Line>, n: nat, a: nat, m: nat, e: nat)
    requires IsHead(lines, n) && Clash(lines, a, m, e)
    ensures a < m < e && (e >= n ==> a >= n)
  {
    if a < n {
      HeadHolds(lines, n);
      assert a == 0;
      if m': nat, e': nat :| Clash(lines, 0, m', e') && n == e' + 1 { ClashIsUnique(lines, 0, m, e, m', e'); }
    }
  }

  ghost predicate EveryStartOpens(lines: seq<Line>) {
    forall a: nat :: a < |lines| && lines[a].marker == Start ==> Opens(lines, a)
  }

  /** A file is parsed exactly when every opening line opens a conflict. */
  lemma {:induction false} ParsedIff(lines: seq<Line>)
    ensures Parse(lines).Some? <==> EveryStartOpens(lines)
    decreases |lines|
  {
    hide HunkAt, PrintOne;
    if lines != [] {
      if IsStart(lines[0]) {
        if HunkAt(lines).Some? {
          HunkIsClash(lines);
          var m: nat, e: nat :| Clash(lines, 0, m, e);
          ClashIsHunk(lines, m, e);
          assert IsHead(lines, e + 1);
          ParsedIff(lines[e + 1..]);
          StartsOfRest(lines, e + 1);
        } else if m: nat, e: nat :| Clash(lines, 0, m, e) {
          ClashIsHunk(lines, m, e);
        }
      } else {
        ParsedIff(lines[1..]);
        StartsOfRest(lines, 1);
      }
    }
  }

  lemma StartsOfRest(lines: seq<Line>, n: nat)
    requires IsHead(lines, n) && n <= |lines|
    requires lines[0].marker == Start ==> Opens(lines, 0)
    ensures EveryStartOpens(lines) <==> EveryStartOpens(lines[n..])
  {
    hide Opens;
    HeadHolds(lines, n);
    forall a: nat | a < |lines| - n ensures Opens(lines[n..], a) <==> Opens(lines, a + n) { OpensShift(lines, n, a); }
    if EveryStartOpens(lines[n..]) {
      forall a: nat | a < |lines| && lines[a].marker == Start ensures Opens(lines, a) {
        if a >= n { assert lines[n..][a - n] == lines[a]; }
      }
    }
    if EveryStartOpens(lines) {
      forall a: nat | a < |lines| - n && lines[n..][a].marker == Start ensures Opens(lines[n..], a) {
        assert lines[a + n].marker == Start;
      }
    }
  }

  /** The chosen places pick these lines. */
  ghost predicate Picks(lines: seq<Line>, at: seq<nat>, out: seq<Line>) {
    |out| == |at| && forall k :: 0 <= k < |at| ==> at[k] < |lines| && out[k] == lines[at[k]]
  }

  /** The places below n of the lines that mark no conflict, in order. */
  ghost predicate AreKeptBelow(lines: seq<Line>, n: nat, at: seq<nat>) {
    && (forall j, k :: 0 <= j < k < |at| ==> at[j] < at[k])
    && forall i: nat :: i in at <==> i < n && !IsMark(lines, i)
  }

  function Range(from: nat, to: nat): (r: seq<nat>)
    requires from <= to
    ensures |r| == to - from && forall k :: 0 <= k < |r| ==> r[k] == from + k
    ensures forall i :: i in r <==> from <= i < to
  {
    var r := seq(to - from, k requires 0 <= k < to - from => from + k);
    assert forall i: nat :: from <= i < to ==> i in r by {
      forall i: nat | from <= i < to ensures i in r { assert r[i - from] == i; }
    }
    r
  }

  lemma KeptOfPlain(lines: seq<Line>)
    requires lines != [] && lines[0].marker != Start
    ensures AreKeptBelow(lines, 1, [0])
  {
  }

  lemma KeptOfHunk(lines: seq<Line>, m: nat, e: nat)
    requires Clash(lines, 0, m, e)
    ensures AreKeptBelow(lines, e + 1, Range(1, m) + Range(m + 1, e))
    ensures Picks(lines, Range(1, m) + Range(m + 1, e), lines[1..m] + lines[m + 1..e])
  {
    forall i: nat | i <= e ensures IsMark(lines, i) <==> i == 0 || i == m || i == e {
      MarksOfHunk(lines, m, e, i);
    }
  }

  lemma MarksOfHunk(lines: seq<Line>, m: nat, e: nat, i: nat)
    requires Clash(lines, 0, m, e) && i <= e
    ensures IsMark(lines, i) <==> i == 0 || i == m || i == e
  {
    if a: nat, m': nat, e': nat :| Clash(lines, a, m', e') && (i == a || i == m' || i == e') {
      assert a == 0 by { assert IsHead(lines, e + 1); HeadHolds(lines, e + 1); }
      ClashIsUnique(lines, 0, m, e, m', e');
    }
  }

  /** The first chunk: how long it is and what is kept of it. */
  lemma KeptOfHead(lines: seq<Line>) returns (n: nat, head: seq<nat>)
    requires lines != [] && Parse(lines).Some?
    ensures IsHead(lines, n) && n <= |lines| && Parse(lines[n..]).Some?
    ensures AreKeptBelow(lines, n, head)
    ensures var cs := Parse(lines).value;
            && cs != [] && cs[1..] == Parse(lines[n..]).value && Picks(lines, head, ResolveOne(cs[0]))
            && (cs[0].Hunk? <==> lines[0].marker == Start)
  {
    hide HunkAt, PrintOne, IsMark, AreKeptBelow;
    if lines[0].marker == Start {
      HunkIsClash(lines);
      var m: nat, e: nat :| Clash(lines, 0, m, e);
      ClashIsHunk(lines, m, e);
      KeptOfHunk(lines, m, e);
      n, head := e + 1, Range(1, m) + Range(m + 1, e);
    } else {
      KeptOfPlain(lines);
      n, head := 1, [0];
    }
  }

  function Shifted(at: seq<nat>, n: nat): (r: seq<nat>)
    ensures |r| == |at| && forall k :: 0 <= k < |at| ==> r[k] == at[k] + n
    ensures forall i: nat :: i in r <==> i >= n && i - n in at
  {
    var r := seq(|at|, k requires 0 <= k < |at| => at[k] + n);
    assert forall k :: 0 <= k < |at| ==> r[k] == at[k] + n;
    r
  }

  lemma KeptTogether(lines: seq<Line>, n: nat, head: seq<nat>, rest: seq<nat>)
    requires IsHead(lines, n) && n <= |lines|
    requires AreKeptBelow(lines, n, head) && AreKeptBelow(lines[n..], |lines| - n, rest)
    ensures AreKeptBelow(lines, |lines|, head + Shifted(rest, n))
  {
    hide IsMark;
    forall i: nat ensures IsMark(lines[n..], i) <==> IsMark(lines, i + n) { MarksShift(lines, n, i); }
    var at := head + Shifted(rest, n);
    forall i: nat ensures i in at <==> i < |lines| && !IsMark(lines, i) {
      if i >= n { assert IsMark(lines[n..], i - n) <==> IsMark(lines, (i - n) + n); }
    }
    assert forall k :: 0 <= k < |head| ==> head[k] in head;
  }

  lemma PicksTogether(lines: seq<Line>, n: nat, head: seq<nat>, rest: seq<nat>, first: seq<Line>, others: seq<Line>)
    requires n <= |lines| && Picks(lines, head, first) && Picks(lines[n..], rest, others)
    ensures Picks(lines, head + Shifted(rest, n), first + others)
  {
  }

  /** What resolving leaves of a parsed file. */
  lemma {:induction false} KeptAre(lines: seq<Line>) returns (at: seq<nat>)
    requires Parse(lines).Some?
    ensures AreKeptBelow(lines, |lines|, at) && Picks(lines, at, Resolved(Parse(lines).value))
    ensures Hunks(Parse(lines).value) > 0 <==> exists a: nat :: a < |lines| && lines[a].marker == Start
    decreases |lines|
  {
    hide HunkAt, PrintOne, ResolveOne, IsMark, Parse, AreKeptBelow, Picks;
    at := [];
    if lines == [] {
      NothingIsKept(lines);
    } else {
      var n, head := KeptOfHead(lines);
      HeadHolds(lines, n);
      var rest := KeptAre(lines[n..]);
      at := head + Shifted(rest, n);
      var cs := Parse(lines).value;
      KeptTogether(lines, n, head, rest);
      PicksTogether(lines, n, head, rest, ResolveOne(cs[0]), Resolved(cs[1..]));
      if a: nat :| a < |lines| && lines[a].marker == Start {
        if a > 0 { assert lines[n..][a - n] == lines[a]; }
      }
      if a: nat :| a < |lines[n..]| && lines[n..][a].marker == Start { assert lines[a + n].marker == Start; }
    }
  }

  lemma NothingIsKept(lines: seq<Line>)
    requires lines == []
    ensures AreKeptBelow(lines, 0, []) && Parse(lines) == Some([]) && Picks(lines, [], Resolved([])) && Hunks([]) == 0
  {
  }

  // ---- on the text ------------------------------------------------------------------------------

  ghost predicate IsAnyMarker(text: string) {
    "<<<<<<<" <= text || "|||||||" <= text || "=======" <= text || ">>>>>>>" <= text
  }

  /** The lines a, m and e mark a conflict to be resolved by keeping both of its blocks. */
  ghost predicate IsConflict(texts: seq<string>, a: nat, m: nat, e: nat) {
    && a + 1 < m && m + 1 < e < |texts| && m - a != e - m
    && "<<<<<<<" <= texts[a] && "=======" <= texts[m] && ">>>>>>>" <= texts[e]
    && (forall k :: a < k < m ==> IsAnyMarker(texts[k]) ==> ">>>>>>>" <= texts[k])
    && (forall k :: m < k < e ==> !IsAnyMarker(texts[k]))
  }

  ghost predicate MarksConflict(texts: seq<string>, i: nat) {
    exists a: nat, m: nat, e: nat :: IsConflict(texts, a, m, e) && (i == a || i == m || i == e)
  }

  ghost predicate OpensConflict(texts: seq<string>, a: nat) {
    exists m: nat, e: nat :: IsConflict(texts, a, m, e)
  }

  /** The lines that mark no conflict, in order. */
  ghost predicate IsWithoutMarks(texts: seq<string>, out: seq<string>) {
    exists at: seq<nat> ::
      && |at| == |out| && (forall j, k :: 0 <= j < k < |at| ==> at[j] < at[k])
      && (forall i: nat :: i in at <==> i < |texts| && !MarksConflict(texts, i))
      && forall k :: 0 <= k < |at| ==> at[k] < |texts| && out[k] == texts[at[k]]
  }

  /** A file is resolved exactly when it has an opening line and every opening line opens a conflict;
      what is left then are all its lines but the three that mark each conflict. */
  lemma ResolvedIff(texts: seq<string>)
    ensures ResolveTexts(texts).Some? <==>
            && (exists a :: 0 <= a < |texts| && "<<<<<<<" <= texts[a])
            && forall a :: 0 <= a < |texts| && "<<<<<<<" <= texts[a] ==> OpensConflict(texts, a)
    ensures ResolveTexts(texts).Some? ==> IsWithoutMarks(texts, ResolveTexts(texts).value)
  {
    hide MarkerOf, Parse, Resolved, Hunks, OpensConflict, MarksConflict, IsMark, Opens;
    var lines := Tagged(texts);
    ParsedIff(lines);
    forall t ensures MarkerOf(t) == Start <==> "<<<<<<<" <= t { MarkersAre(t); }
    forall a: nat ensures Opens(lines, a) <==> OpensConflict(texts, a) { SameConflicts(texts, a); }
    if Parse(lines).Some? {
      var at := KeptAre(lines);
      forall i: nat ensures IsMark(lines, i) <==> MarksConflict(texts, i) { SameConflicts(texts, i); }
    }
  }

  lemma MarkersAre(t: string)
    ensures MarkerOf(t) == Start <==> "<<<<<<<" <= t
    ensures MarkerOf(t) == Mid <==> "=======" <= t
    ensures MarkerOf(t) == End <==> ">>>>>>>" <= t
    ensures MarkerOf(t) == Text <==> !IsAnyMarker(t)
  {
    assert "<<<<<<<" <= t ==> t[0] == '<';
    assert "|||||||" <= t ==> t[0] == '|';
    assert "=======" <= t ==> t[0] == '=';
    assert ">>>>>>>" <= t ==> t[0] == '>';
  }

  lemma SameConflicts(texts: seq<string>, i: nat)
    ensures Opens(Tagged(texts), i) <==> OpensConflict(texts, i)
    ensures IsMark(Tagged(texts), i) <==> MarksConflict(texts, i)
  {
    hide MarkerOf, IsAnyMarker;
    forall a: nat, m: nat, e: nat ensures Clash(Tagged(texts), a, m, e) <==> IsConflict(texts, a, m, e) {
      SameConflict(texts, a, m, e);
    }
    hide Clash, IsConflict;
  }

  lemma SameConflict(texts: seq<string>, a: nat, m: nat, e: nat)
    ensures Clash(Tagged(texts), a, m, e) <==> IsConflict(texts, a, m, e)
  {
    hide MarkerOf, IsAnyMarker;
    forall t
      ensures MarkerOf(t) == Start <==> "<<<<<<<" <= t
      ensures MarkerOf(t) == Mid <==> "=======" <= t
      ensures MarkerOf(t) == End <==> ">>>>>>>" <= t
      ensures MarkerOf(t) == Text <==> !IsAnyMarker(t)
    {
      MarkersAre(t);
    }
  }
}
