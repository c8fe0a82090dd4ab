/** Automatic resolution of append-only merge conflicts (hyqs/pipeline/conflict_autoresolve.py),
    on the lines of a file. */
module ConflictMarkers {
  import opened PyValues

  datatype Marker = Start | Ancestor | Mid | End | Text

  /** One line of a file, with its line end, and the conflict marker it begins with. */
  datatype Line = Line(marker: Marker, text: string)

  /** `startswith` on the line: no line begins with two of the markers. */
  function MarkerOf(text: string): Marker {
    if "<<<<<<<" <= text then Start
    else if "|||||||" <= text then Ancestor
    else if "=======" <= text then Mid
    else if ">>>>>>>" <= text then End
    else Text
  }

  function Tagged(texts: seq<string>): (lines: seq<Line>)
    ensures |lines| == |texts|
    ensures forall i :: 0 <= i < |texts| ==> lines[i] == Line(MarkerOf(texts[i]), texts[i])
  {
    seq(|texts|, i requires 0 <= i < |texts| => Line(MarkerOf(texts[i]), texts[i]))
  }

  predicate IsStart(line: Line) { line.marker == Start }
  predicate IsAncestor(line: Line) { line.marker == Ancestor }
  predicate IsMid(line: Line) { line.marker == Mid }
  predicate IsEnd(line: Line) { line.marker == End }

  /** A line that may stand in the block before, or after, the separator. A `>>>>>>>` line is
      let through in the first block. */
  predicate InOurs(line: Line) { !IsStart(line) && !IsMid(line) && !IsAncestor(line) }
  predicate InTheirs(line: Line) { InOurs(line) && !IsEnd(line) }

  // ---- the grammar -------------------------------------------------------------

  datatype Chunk =
    | Plain(line: Line)
    | Hunk(start: Line, ours: seq<Line>, mid: Line, theirs: seq<Line>, end: Line)

  predicate Legal(c: Chunk) {
    match c
    case Plain(line) => !IsStart(line)
    case Hunk(start, ours, mid, theirs, end) =>
      && IsStart(start) && IsMid(mid) && IsEnd(end)
      && (forall l :: l in ours ==> InOurs(l)) && (forall l :: l in theirs ==> InTheirs(l))
      && ours != [] && theirs != [] && |ours| != |theirs|
  }

  predicate AllLegal(cs: seq<Chunk>) { forall c :: c in cs ==> Legal(c) }

  function PrintOne(c: Chunk): seq<Line> {
    match c
    case Plain(line) => [line]
    case Hunk(start, ours, mid, theirs, end) => [start] + ours + [mid] + theirs + [end]
  }

  function ResolveOne(c: Chunk): seq<Line> {
    match c
    case Plain(line) => [line]
    case Hunk(_, ours, _, theirs, _) => ours + theirs
  }

  function Print(cs: seq<Chunk>): seq<Line> {
    if cs == [] then [] else PrintOne(cs[0]) + Print(cs[1..])
  }

  function Resolved(cs: seq<Chunk>): seq<Line> {
    if cs == [] then [] else ResolveOne(cs[0]) + Resolved(cs[1..])
  }

  function Hunks(cs: seq<Chunk>): nat {
    if cs == [] then 0 else (if cs[0].Hunk? then 1 else 0) + Hunks(cs[1..])
  }

  // ---- the parser ---------------------------------------------------------------

  function CountWhile(p: Line -> bool, lines: seq<Line>): (n: nat)
    ensures n <= |lines|
  {
    if lines == [] || !p(lines[0]) then 0 else 1 + CountWhile(p, lines[1..])
  }

  lemma {:induction false} CountStops(p: Line -> bool, lines: seq<Line>)
    ensures var n := CountWhile(p, lines);
            (forall i :: 0 <= i < n ==> p(lines[i])) && (n < |lines| ==> !p(lines[n]))
  {
    if lines != [] && p(lines[0]) {
      CountStops(p, lines[1..]);
      assert lines == [lines[0]] + lines[1..];
    }
  }

  function OursLength(lines: seq<Line>): nat
    requires lines != []
  {
    CountWhile(InOurs, lines[1..])
  }

  function TheirsLength(lines: seq<Line>, o: nat): nat
    requires o + 2 <= |lines|
  {
    CountWhile(InTheirs, lines[o + 2..])
  }

  /** The hunk whose blocks are o and t lines long. */
  function HunkOf(lines: seq<Line>, o: nat, t: nat): Chunk
    requires o + 2 + t < |lines|
  {
    Hunk(lines[0], lines[1..o + 1], lines[o + 1], lines[o + 2..o + 2 + t], lines[o + 2 + t])
  }

  /** The hunk at the head of `lines`, when there is a well-formed one. */
  function HunkAt(lines: seq<Line>): (r: Option<Chunk>)
    requires lines != [] && IsStart(lines[0])
    ensures r.Some? ==> r.value.Hunk? && Legal(r.value) && PrintOne(r.value) <= lines
  {
    var o := OursLength(lines);
    if 1 + o >= |lines| || !IsMid(lines[1 + o]) then None
    else
      var t := TheirsLength(lines, o);
      if o + 2 + t >= |lines| || !IsEnd(lines[o + 2 + t]) || o == 0 || t == 0 || o == t then None
      else
        HunkPrints(lines, o, t);
        HunkBlocks(lines, o, t);
        Some(HunkOf(lines, o, t))
  }

  lemma HunkPrints(lines: seq<Line>, o: nat, t: nat)
    requires o + 2 + t < |lines|
    ensures PrintOne(HunkOf(lines, o, t)) <= lines
  {
    JoinSlices(lines, o, t);
  }

  lemma HunkBlocks(lines: seq<Line>, o: nat, t: nat)
    requires o + 2 + t < |lines|
    requires o == OursLength(lines) && t == TheirsLength(lines, o)
    ensures forall l :: l in HunkOf(lines, o, t).ours ==> InOurs(l)
    ensures forall l :: l in HunkOf(lines, o, t).theirs ==> InTheirs(l)
  {
    hide CountWhile;
    CountedBlock(InOurs, lines, 1, o);
    CountedBlock(InTheirs, lines, o + 2, t);
  }

  lemma CountedBlock(p: Line -> bool, lines: seq<Line>, from: nat, n: nat)
    requires from <= |lines| && n == CountWhile(p, lines[from..])
    ensures from + n <= |lines| && forall l :: l in lines[from..from + n] ==> p(l)
  {
    CountStops(p, lines[from..]);
    forall l | l in lines[from..from + n] ensures p(l) {
      var i :| 0 <= i < n && lines[from..from + n][i] == l;
      assert lines[from..][i] == l;
    }
  }

  lemma JoinSlices<T>(s: seq<T>, o: nat, t: nat)
    requires o + 2 + t < |s|
    ensures [s[0]] + s[1..o + 1] + [s[o + 1]] + s[o + 2..o + 2 + t] + [s[o + 2 + t]] <= s
  {
  }

  function Cons(c: Chunk, r: Option<seq<Chunk>>): Option<seq<Chunk>> {
    if r.Some? then Some([c] + r.value) else None
  }

  function Parse(lines: seq<Line>): Option<seq<Chunk>>
    decreases |lines|
  {
    if lines == [] then Some([])
    else if !IsStart(lines[0]) then Cons(Plain(lines[0]), Parse(lines[1..]))
    else
      var h := HunkAt(lines);
      if h.None? then None else Cons(h.value, Parse(lines[|PrintOne(h.value)|..]))
  }

  function Resolve(lines: seq<Line>): Option<seq<Line>> {
    var cs := Parse(lines);
    if cs.Some? && Hunks(cs.value) > 0 then Some(Resolved(cs.value)) else None
  }

  // ---- parser and printer ------------------------------------------------------------

  /** What the parser returns is legal and prints back to the same lines. */
  lemma {:induction false} PrintOfParse(lines: seq<Line>)
    requires Parse(lines).Some?
    ensures AllLegal(Parse(lines).value) && Print(Parse(lines).value) == lines
    decreases |lines|
  {
    hide HunkAt;
    if lines != [] {
      var c := if IsStart(lines[0]) then HunkAt(lines).value else Plain(lines[0]);
      var n := |PrintOne(c)|;
      PrintOfParse(lines[n..]);
      assert Parse(lines).value == [c] + Parse(lines[n..]).value;
      PrintStep(lines, c, Parse(lines[n..]).value);
    }
  }

  lemma PrintStep(lines: seq<Line>, c: Chunk, cs: seq<Chunk>)
    requires Legal(c) && AllLegal(cs) && PrintOne(c) <= lines && Print(cs) == lines[|PrintOne(c)|..]
    ensures AllLegal([c] + cs) && Print([c] + cs) == lines
  {
    hide PrintOne;
    assert ([c] + cs)[1..] == cs;
  }

  lemma CountBlock(p: Line -> bool, block: seq<Line>, rest: seq<Line>)
    requires forall l :: l in block ==> p(l)
    requires rest != [] && !p(rest[0])
    ensures CountWhile(p, block + rest) == |block|
  {
    var all := block + rest;
    var n := CountWhile(p, all);
    CountStops(p, all);
    assert forall i :: 0 <= i < |block| ==> all[i] == block[i] && block[i] in block;
    assert all[|block|] == rest[0];
  }

  lemma OursFound(c: Chunk, rest: seq<Line>)
    requires c.Hunk? && Legal(c)
    ensures OursLength(PrintOne(c) + rest) == |c.ours|
  {
    var after := [c.mid] + c.theirs + [c.end] + rest;
    SplitHunk(c.start, c.ours, c.mid, c.theirs, c.end, rest);
    CountBlock(InOurs, c.ours, after);
  }

  lemma TheirsFound(c: Chunk, rest: seq<Line>)
    requires c.Hunk? && Legal(c)
    ensures |c.ours| + 2 <= |PrintOne(c) + rest| && TheirsLength(PrintOne(c) + rest, |c.ours|) == |c.theirs|
  {
    SplitHunk(c.start, c.ours, c.mid, c.theirs, c.end, rest);
    CountBlock(InTheirs, c.theirs, [c.end] + rest);
  }

  lemma HunkOfPrint(c: Chunk, rest: seq<Line>)
    requires c.Hunk?
    ensures var lines := PrintOne(c) + rest;
            && |c.ours| + 2 + |c.theirs| < |lines| && HunkOf(lines, |c.ours|, |c.theirs|) == c
            && lines[0] == c.start && lines[1 + |c.ours|] == c.mid && lines[|c.ours| + 2 + |c.theirs|] == c.end
  {
    SplitHunk(c.start, c.ours, c.mid, c.theirs, c.end, rest);
  }

  lemma HunkIsFound(c: Chunk, rest: seq<Line>)
    requires c.Hunk? && Legal(c)
    ensures HunkAt(PrintOne(c) + rest) == Some(c)
  {
    hide OursLength, TheirsLength, HunkOf, PrintOne, HunkAt;
    OursFound(c, rest);
    TheirsFound(c, rest);
    HunkOfPrint(c, rest);
    HunkVerdict(PrintOne(c) + rest, |c.ours|, |c.theirs|);
  }

  /** The verdict from the two block lengths. */
  lemma HunkVerdict(lines: seq<Line>, o: nat, t: nat)
    requires o + 2 + t < |lines| && IsStart(lines[0])
    requires o == OursLength(lines) && IsMid(lines[1 + o]) && t == TheirsLength(lines, o) && IsEnd(lines[o + 2 + t])
    ensures HunkAt(lines) == if o != 0 && t != 0 && o != t then Some(HunkOf(lines, o, t)) else None
  {
  }

  lemma NoHunk(lines: seq<Line>, o: nat)
    requires lines != [] && IsStart(lines[0]) && o == OursLength(lines)
    ensures 1 + o >= |lines| || !IsMid(lines[1 + o]) ==> HunkAt(lines) == None
    ensures o + 2 <= |lines| && (o + 2 + TheirsLength(lines, o) >= |lines| ||
                                 !IsEnd(lines[o + 2 + TheirsLength(lines, o)])) ==>
              HunkAt(lines) == None
  {
  }

  lemma SplitHunk<T>(start: T, ours: seq<T>, mid: T, theirs: seq<T>, end: T, rest: seq<T>)
    ensures var s := [start] + ours + [mid] + theirs + [end] + rest;
            var o, t := |ours|, |theirs|;
            && |s| >= o + t + 3 && s[0] == start && s[1 + o] == mid && s[o + 2 + t] == end
            && s[1..] == ours + ([mid] + theirs + [end] + rest) && s[o + 2..] == theirs + ([end] + rest)
            && s[1..o + 1] == ours && s[o + 2..o + 2 + t] == theirs && s[o + 3 + t..] == rest
  {
  }

  /** Parsing what was printed gives the chunks back. */
  lemma {:induction false} ParseOfPrint(cs: seq<Chunk>)
    requires AllLegal(cs)
    ensures Parse(Print(cs)) == Some(cs)
  {
    if cs != [] {
      var c, rest := cs[0], cs[1..];
      LegalParts(cs);
      ParseOfPrint(rest);
      ParseStep(c, Print(rest), rest);
      assert cs == [c] + rest;
    }
  }

  lemma LegalParts(cs: seq<Chunk>)
    requires AllLegal(cs) && cs != []
    ensures Legal(cs[0]) && AllLegal(cs[1..])
  {
    assert cs[0] in cs && forall d :: d in cs[1..] ==> d in cs;
  }

  lemma ParseStep(c: Chunk, rest: seq<Line>, parsed: seq<Chunk>)
    requires Legal(c) && Parse(rest) == Some(parsed)
    ensures Parse(PrintOne(c) + rest) == Some([c] + parsed)
  {
    var lines := PrintOne(c) + rest;
    assert lines[|PrintOne(c)|..] == rest;
    if c.Hunk? {
      HunkIsFound(c, rest);
      assert lines[0] == c.start;
    }
  }

  /** Resolving succeeds exactly on the printings of legal chunks with at least one hunk, and
      then keeps every plain line, and ours before theirs, in order. */
  lemma ResolvesExactlyPrintings(lines: seq<Line>, out: seq<Line>)
    ensures Resolve(lines) == Some(out) <==>
            exists cs :: AllLegal(cs) && Hunks(cs) > 0 && Print(cs) == lines && Resolved(cs) == out
  {
    if Resolve(lines) == Some(out) {
      PrintOfParse(lines);
      assert Resolved(Parse(lines).value) == out;
    }
    forall cs | AllLegal(cs) && Hunks(cs) > 0 && Print(cs) == lines && Resolved(cs) == out
      ensures Resolve(lines) == Some(out)
    {
      ParseOfPrint(cs);
    }
  }

  lemma {:induction false} ResolvedLength(cs: seq<Chunk>)
    ensures |Resolved(cs)| + 3 * Hunks(cs) == |Print(cs)|
  {
    if cs != [] { ResolvedLength(cs[1..]); }
  }

  lemma {:induction false} ResolvedHasNoStart(cs: seq<Chunk>)
    requires AllLegal(cs)
    ensures forall l :: l in Resolved(cs) ==> !IsStart(l)
  {
    if cs != [] {
      assert cs[0] in cs && forall d :: d in cs[1..] ==> d in cs;
      ResolvedHasNoStart(cs[1..]);
    }
  }

  lemma {:induction false} NoStartParsesPlain(lines: seq<Line>)
    requires forall l :: l in lines ==> !IsStart(l)
    ensures Parse(lines).Some? && Hunks(Parse(lines).value) == 0
  {
    if lines != [] {
      assert lines[0] in lines && forall l :: l in lines[1..] ==> l in lines;
      NoStartParsesPlain(lines[1..]);
      var cs := Parse(lines[1..]).value;
      assert ([Plain(lines[0])] + cs)[1..] == cs;
    }
  }

  /** A resolved file is three lines per hunk shorter, holds no `<<<<<<<` line, and resolving it
      again finds nothing to do. */
  lemma ResolvedIsFinal(lines: seq<Line>)
    requires Resolve(lines).Some?
    ensures var out := Resolve(lines).value;
            && |out| + 3 * Hunks(Parse(lines).value) == |lines|
            && (forall l :: l in out ==> !IsStart(l))
            && Resolve(out) == None
  {
    PrintOfParse(lines);
    var cs := Parse(lines).value;
    ResolvedLength(cs);
    ResolvedHasNoStart(cs);
    NoStartParsesPlain(Resolved(cs));
  }

  // ---- on the text itself ---------------------------------------------------------------

  function TextsOf(lines: seq<Line>): (texts: seq<string>)
    ensures |texts| == |lines| && forall i :: 0 <= i < |lines| ==> texts[i] == lines[i].text
  {
    seq(|lines|, i requires 0 <= i < |lines| => lines[i].text)
  }

  function ResolveTexts(texts: seq<string>): Option<seq<string>> {
    var r := Resolve(Tagged(texts));
    if r.Some? then Some(TextsOf(r.value)) else None
  }

  lemma {:induction false} ResolvedLinesAreGiven(cs: seq<Chunk>)
    ensures forall l :: l in Resolved(cs) ==> l in Print(cs)
  {
    if cs != [] { ResolvedLinesAreGiven(cs[1..]); }
  }

  /** Reading the resolved lines again finds the same markers. */
  lemma TagsStay(lines: seq<Line>)
    requires forall l :: l in lines ==> l.marker == MarkerOf(l.text)
    ensures Tagged(TextsOf(lines)) == lines
  {
    forall i | 0 <= i < |lines| ensures Tagged(TextsOf(lines))[i] == lines[i] {
      assert lines[i] in lines;
    }
  }

  /** Every line of a resolved text is one of the original, none opens a conflict, and resolving
      the text again finds nothing to do. */
  lemma ResolvedTextIsFinal(texts: seq<string>)
    requires ResolveTexts(texts).Some?
    ensures var out := ResolveTexts(texts).value;
            && (forall t :: t in out ==> t in texts && !("<<<<<<<" <= t))
            && ResolveTexts(out) == None
  {
    hide Resolve, MarkerOf;
    var lines := Tagged(texts);
    var resolved := Resolve(lines).value;
    GivenLines(lines);
    ResolvedIsFinal(lines);
    forall l | l in resolved ensures l.marker == MarkerOf(l.text) && l.text in texts {
      var i :| 0 <= i < |lines| && lines[i] == l;
      assert texts[i] in texts;
    }
    TagsStay(resolved);
    forall t | t in TextsOf(resolved) ensures t in texts && !("<<<<<<<" <= t) {
      var i :| 0 <= i < |resolved| && TextsOf(resolved)[i] == t;
      assert resolved[i] in resolved;
      StartMarks(t);
    }
  }

  lemma StartMarks(t: string)
    ensures MarkerOf(t) == Start <==> "<<<<<<<" <= t
  {
  }

  lemma GivenLines(lines: seq<Line>)
    requires Resolve(lines).Some?
    ensures forall l :: l in Resolve(lines).value ==> l in lines
  {
    PrintOfParse(lines);
    ResolvedLinesAreGiven(Parse(lines).value);
  }

  // ---- the loops ----------------------------------------------------------------------

  /** The first inner loop; `forbidden` when a `<<<<<<<` line ends it. */
  method ReadOurs(lines: seq<Line>, from: nat) returns (ours: seq<Line>, i: nat, forbidden: bool)
    requires from <= |lines|
    ensures i == from + CountWhile(InOurs, lines[from..]) && i <= |lines| && ours == lines[from..i]
    ensures forbidden <==> i < |lines| && IsStart(lines[i])
  {
    ours, i, forbidden := [], from, false;
    while i < |lines| && !IsMid(lines[i]) && !IsAncestor(lines[i])
      invariant from <= i <= |lines|
      invariant ours == lines[from..i] && forall j :: from <= j < i ==> InOurs(lines[j])
    {
      if IsStart(lines[i]) {
        forbidden := true;
        break;
      }
      ours := ours + [lines[i]];
      i := i + 1;
    }
    BlockLength(InOurs, lines[from..], i - from);
  }

  /** The second inner loop. */
  method ReadTheirs(lines: seq<Line>, from: nat) returns (theirs: seq<Line>, i: nat, forbidden: bool)
    requires from <= |lines|
    ensures i == from + CountWhile(InTheirs, lines[from..]) && i <= |lines| && theirs == lines[from..i]
    ensures forbidden <==> i < |lines| && !IsEnd(lines[i])
  {
    theirs, i, forbidden := [], from, false;
    while i < |lines| && !IsEnd(lines[i])
      invariant from <= i <= |lines|
      invariant theirs == lines[from..i] && forall j :: from <= j < i ==> InTheirs(lines[j])
    {
      if IsStart(lines[i]) || IsMid(lines[i]) || IsAncestor(lines[i]) {
        forbidden := true;
        break;
      }
      theirs := theirs + [lines[i]];
      i := i + 1;
    }
    BlockLength(InTheirs, lines[from..], i - from);
  }

  /** Where the first block stops, when the hunk begins at `at`. */
  function OursEnd(lines: seq<Line>, at: nat): nat
    requires at < |lines|
  {
    at + 1 + CountWhile(InOurs, lines[at + 1..])
  }

  /** Where the second block stops, when the separator is at i. */
  function TheirsEnd(lines: seq<Line>, i: nat): nat
    requires i < |lines|
  {
    i + 1 + CountWhile(InTheirs, lines[i + 1..])
  }

  /** There is a well-formed hunk at `at`. */
  predicate HunkHere(lines: seq<Line>, at: nat)
    requires at < |lines|
  {
    var i := OursEnd(lines, at);
    && i < |lines| && IsMid(lines[i])
    && var end := TheirsEnd(lines, i);
       && end < |lines| && IsEnd(lines[end])
       && i - at - 1 != 0 && end - i - 1 != 0 && i - at - 1 != end - i - 1
  }

  /** From the line after `<<<<<<<` to the line after `>>>>>>>`. */
  method ReadHunk(lines: seq<Line>, at: nat) returns (ok: bool, ours: seq<Line>, theirs: seq<Line>, next: nat)
    requires at < |lines| && IsStart(lines[at])
    ensures ok <==> HunkHere(lines, at)
    ensures ok ==> var i := OursEnd(lines, at);
                   next == TheirsEnd(lines, i) + 1 && ours == lines[at + 1..i] && theirs == lines[i + 1..next - 1]
  {
    hide CountWhile;
    var i, forbidden;
    theirs, next := [], at;
    ours, i, forbidden := ReadOurs(lines, at + 1);
    if forbidden || i >= |lines| || IsAncestor(lines[i]) {
      return false, ours, theirs, at;
    }
    EndOfBlock(lines, at, i);
    ok, theirs, next := ReadRest(lines, i, ours);
  }

  /** The second half, once the separator is found at i. */
  method ReadRest(lines: seq<Line>, i: nat, ours: seq<Line>) returns (ok: bool, theirs: seq<Line>, next: nat)
    requires i < |lines|
    ensures ok <==>
            var end := TheirsEnd(lines, i);
            end < |lines| && IsEnd(lines[end]) && ours != [] && end - i - 1 != 0 && |ours| != end - i - 1
    ensures ok ==> next == TheirsEnd(lines, i) + 1 && next <= |lines| && theirs == lines[i + 1..next - 1]
  {
    var forbidden;
    theirs, next, forbidden := ReadTheirs(lines, i + 1);
    if forbidden || next >= |lines| {
      return false, theirs, next;
    }
    ok := ours != [] && theirs != [] && |ours| != |theirs|;
    next := next + 1;
  }

  /** Reading the hunk in place agrees with the parser. */
  lemma HunkReads(lines: seq<Line>, at: nat)
    requires at < |lines| && IsStart(lines[at])
    ensures !HunkHere(lines, at) ==> HunkAt(lines[at..]) == None
    ensures HunkHere(lines, at) ==>
              var i := OursEnd(lines, at);
              HunkAt(lines[at..]) == Some(HunkIn(lines, at, i, TheirsEnd(lines, i)))
  {
    var i := OursEnd(lines, at);
    SliceAgain(lines, at, 1);
    SliceAt(lines, at, 0);
    if i < |lines| { SliceAt(lines, at, i - at); }
    if i >= |lines| || !IsMid(lines[i]) {
      NoHunk(lines[at..], i - at - 1);
    } else {
      HunkFromBlocks(lines, at, i, TheirsEnd(lines, i));
    }
  }

  lemma HunkSize(start: Line, ours: seq<Line>, mid: Line, theirs: seq<Line>, end: Line)
    ensures |PrintOne(Hunk(start, ours, mid, theirs, end))| == |ours| + |theirs| + 3
  {
  }

  /** The hunk at `at` whose separator is at i and whose end is at `next`. */
  function HunkIn(lines: seq<Line>, at: nat, i: nat, next: nat): Chunk
    requires at < i < next < |lines|
  {
    Hunk(lines[at], lines[at + 1..i], lines[i], lines[i + 1..next], lines[next])
  }

  lemma HunkOfRest(lines: seq<Line>, at: nat, i: nat, next: nat)
    requires at < i < next < |lines|
    ensures HunkOf(lines[at..], i - at - 1, next - i - 1) == HunkIn(lines, at, i, next)
  {
    var o, t := i - at - 1, next - i - 1;
    BlocksAgain(lines, at, o, t);
  }

  /** The separator and the end, seen from the hunk's first line. */
  lemma SeenFrom(lines: seq<Line>, at: nat, i: nat, next: nat)
    requires at < i < next <= |lines|
    requires next == TheirsEnd(lines, i)
    ensures lines[at..] != [] && lines[at..][0] == lines[at] && lines[at..][i - at] == lines[i]
    ensures TheirsLength(lines[at..], i - at - 1) == next - i - 1
    ensures next < |lines| ==> lines[at..][next - at] == lines[next]
  {
    SliceAgain(lines, at, i + 1 - at);
  }

  lemma HunkByLengths(rest: seq<Line>, o: nat, t: nat)
    requires o + 1 < |rest| && IsStart(rest[0]) && IsMid(rest[1 + o])
    requires o == OursLength(rest) && t == TheirsLength(rest, o)
    ensures HunkAt(rest) ==
            if o + 2 + t < |rest| && IsEnd(rest[o + 2 + t]) && o != 0 && t != 0 && o != t then Some(HunkOf(rest, o, t))
            else None
  {
  }

  /** The verdict on the hunk at `at`, from where its two blocks end. */
  lemma HunkFromBlocks(lines: seq<Line>, at: nat, i: nat, next: nat)
    requires at < i < next <= |lines| && IsStart(lines[at]) && IsMid(lines[i])
    requires i - at - 1 == OursLength(lines[at..]) && next == TheirsEnd(lines, i)
    ensures next == |lines| || !IsEnd(lines[next]) ==> HunkAt(lines[at..]) == None
    ensures next < |lines| && IsEnd(lines[next]) ==>
              HunkAt(lines[at..]) ==
              if i - at - 1 != 0 && next - i - 1 != 0 && i - at - 1 != next - i - 1
              then Some(HunkIn(lines, at, i, next)) else None
  {
    hide HunkAt, HunkOf, HunkIn, CountWhile, OursLength, TheirsLength, TheirsEnd;
    var rest := lines[at..];
    var o, t := i - at - 1, next - i - 1;
    SeenFrom(lines, at, i, next);
    HunkByLengths(rest, o, t);
    if next < |lines| { HunkOfRest(lines, at, i, next); }
  }

  lemma SliceAgain<T>(s: seq<T>, at: nat, k: nat)
    requires at + k <= |s|
    ensures s[at..][k..] == s[at + k..]
  {
  }

  lemma SliceAt<T>(s: seq<T>, at: nat, k: nat)
    requires at + k < |s|
    ensures s[at..][k] == s[at + k]
  {
  }

  lemma BlocksAgain<T>(s: seq<T>, at: nat, o: nat, t: nat)
    requires at + o + 2 + t < |s|
    ensures s[at..][1..o + 1] == s[at + 1..at + o + 1] && s[at..][o + 2..o + 2 + t] == s[at + o + 2..at + o + 2 + t]
  {
  }

  /** The first block ends at a separator when nothing forbids it. */
  lemma EndOfBlock(lines: seq<Line>, at: nat, i: nat)
    requires at < i < |lines| && i == at + 1 + CountWhile(InOurs, lines[at + 1..])
    requires !IsStart(lines[i]) && !IsAncestor(lines[i])
    ensures IsMid(lines[i])
  {
    CountStops(InOurs, lines[at + 1..]);
    assert lines[at + 1..][i - at - 1] == lines[i];
  }

  lemma BlockLength(p: Line -> bool, lines: seq<Line>, n: nat)
    requires n <= |lines| && (forall i :: 0 <= i < n ==> p(lines[i])) && (n < |lines| ==> !p(lines[n]))
    ensures CountWhile(p, lines) == n
  {
    CountStops(p, lines);
  }

  function Prepend(done: seq<Chunk>, r: Option<seq<Chunk>>): Option<seq<Chunk>> {
    if r.Some? then Some(done + r.value) else None
  }

  lemma PrependCons(done: seq<Chunk>, c: Chunk, r: Option<seq<Chunk>>)
    ensures Prepend(done, Cons(c, r)) == Prepend(done + [c], r)
  {
    if r.Some? { assert done + ([c] + r.value) == (done + [c]) + r.value; }
  }

  lemma PrependNothing(r: Option<seq<Chunk>>)
    ensures Prepend([], r) == r
  {
    if r.Some? { assert [] + r.value == r.value; }
  }

  lemma Associate<T>(a: seq<T>, b: seq<T>, c: seq<T>)
    ensures (a + b) + c == a + (b + c)
  {
  }

  lemma {:induction false} AppendResolved(done: seq<Chunk>, c: Chunk)
    ensures Resolved(done + [c]) == Resolved(done) + ResolveOne(c)
    ensures Hunks(done + [c]) == Hunks(done) + (if c.Hunk? then 1 else 0)
  {
    hide ResolveOne;
    if done == [] {
      assert [c][1..] == [];
    } else {
      AppendResolved(done[1..], c);
      assert (done + [c])[1..] == done[1..] + [c];
      Associate(ResolveOne(done[0]), Resolved(done[1..]), ResolveOne(c));
    }
  }

  lemma ParsePlain(lines: seq<Line>, at: nat)
    requires at < |lines| && !IsStart(lines[at])
    ensures Parse(lines[at..]) == Cons(Plain(lines[at]), Parse(lines[at + 1..]))
  {
    SliceAt(lines, at, 0);
    SliceAgain(lines, at, 1);
  }

  lemma ParseAtStart(rest: seq<Line>, h: Option<Chunk>)
    requires rest != [] && IsStart(rest[0]) && h == HunkAt(rest)
    ensures h.None? ==> Parse(rest) == None
    ensures h.Some? ==> |PrintOne(h.value)| <= |rest| &&
                        Parse(rest) == Cons(h.value, Parse(rest[|PrintOne(h.value)|..]))
  {
  }

  lemma HunkInSize(lines: seq<Line>, at: nat, i: nat, end: nat)
    requires at < i < end < |lines|
    ensures |PrintOne(HunkIn(lines, at, i, end))| == end + 1 - at
  {
    HunkSize(lines[at], lines[at + 1..i], lines[i], lines[i + 1..end], lines[end]);
  }

  lemma ParseHunk(lines: seq<Line>, at: nat)
    requires at < |lines| && IsStart(lines[at])
    ensures !HunkHere(lines, at) ==> Parse(lines[at..]) == None
    ensures HunkHere(lines, at) ==>
              var i := OursEnd(lines, at);
              var end := TheirsEnd(lines, i);
              at < i < end < |lines| && Parse(lines[at..]) == Cons(HunkIn(lines, at, i, end), Parse(lines[end + 1..]))
  {
    hide HunkAt, Parse;
    SliceAt(lines, at, 0);
    if HunkHere(lines, at) {
      var i := OursEnd(lines, at);
      var end := TheirsEnd(lines, i);
      ParseFound(lines, at, HunkIn(lines, at, i, end), end + 1);
    } else {
      HunkReads(lines, at);
      ParseAtStart(lines[at..], None);
    }
  }

  lemma ParseFound(lines: seq<Line>, at: nat, c: Chunk, next: nat)
    requires at < |lines| && IsStart(lines[at]) && HunkHere(lines, at)
    requires at < OursEnd(lines, at) < next - 1 < |lines| && next == TheirsEnd(lines, OursEnd(lines, at)) + 1
    requires c == HunkIn(lines, at, OursEnd(lines, at), next - 1)
    ensures Parse(lines[at..]) == Cons(c, Parse(lines[next..]))
  {
    hide OursEnd, TheirsEnd, HunkIn, PrintOne, HunkAt, Parse;
    SliceAt(lines, at, 0);
    HunkReads(lines, at);
    HunkInSize(lines, at, OursEnd(lines, at), next - 1);
    ParseAtStart(lines[at..], Some(c));
    SliceAgain(lines, at, next - at);
  }

  /** The chunks read before `at` are `done`. */
  predicate ReadUpTo(lines: seq<Line>, at: nat, done: seq<Chunk>)
    requires at <= |lines|
  {
    Parse(lines) == Prepend(done, Parse(lines[at..]))
  }

  lemma ReadNothing(lines: seq<Line>)
    ensures ReadUpTo(lines, 0, []) && Resolved([]) == [] && Hunks([]) == 0
  {
    assert lines[0..] == lines;
    PrependNothing(Parse(lines));
  }

  lemma ReadOn(lines: seq<Line>, at: nat, done: seq<Chunk>, c: Chunk, next: nat)
    requires at <= |lines| && next <= |lines| && ReadUpTo(lines, at, done)
    requires Parse(lines[at..]) == Cons(c, Parse(lines[next..]))
    ensures ReadUpTo(lines, next, done + [c])
  {
    PrependCons(done, c, Parse(lines[next..]));
  }

  lemma ReadAll(lines: seq<Line>, done: seq<Chunk>)
    requires ReadUpTo(lines, |lines|, done)
    ensures Resolve(lines) == if Hunks(done) > 0 then Some(Resolved(done)) else None
  {
    assert lines[|lines|..] == [] && done + [] == done;
  }

  lemma ReadFails(lines: seq<Line>, at: nat, done: seq<Chunk>)
    requires at <= |lines| && ReadUpTo(lines, at, done) && Parse(lines[at..]) == None
    ensures Resolve(lines) == None
  {
  }

  lemma AppendPlain(done: seq<Chunk>, line: Line)
    ensures Resolved(done + [Plain(line)]) == Resolved(done) + [line]
    ensures Hunks(done + [Plain(line)]) == Hunks(done)
  {
    AppendResolved(done, Plain(line));
  }

  lemma AppendHunk(done: seq<Chunk>, c: Chunk, ours: seq<Line>, theirs: seq<Line>)
    requires c.Hunk? && c.ours == ours && c.theirs == theirs
    ensures Resolved(done + [c]) == Resolved(done) + ours + theirs
    ensures Hunks(done + [c]) == Hunks(done) + 1
  {
    AppendResolved(done, c);
  }

  method ResolvePureAppendConflicts(lines: seq<Line>) returns (r: Option<seq<Line>>)
    ensures r == Resolve(lines)
  {
    hide Parse, Resolve, Resolved, ResolveOne, Hunks, ReadUpTo, HunkHere, OursEnd, TheirsEnd;
    var out: seq<Line> := [];
    var i := 0;
    var sawHunk := false;
    ghost var done: seq<Chunk> := [];
    ReadNothing(lines);
    while i < |lines|
      invariant 0 <= i <= |lines| && ReadUpTo(lines, i, done)
      invariant out == Resolved(done) && (sawHunk <==> Hunks(done) > 0)
      decreases |lines| - i
    {
      var line := lines[i];
      if !IsStart(line) {
        AppendPlain(done, line);
        ParsePlain(lines, i);
        ReadOn(lines, i, done, Plain(line), i + 1);
        out := out + [line];
        done := done + [Plain(line)];
        i := i + 1;
      } else {
        var ok, ours, theirs, next := ReadHunk(lines, i);
        ParseHunk(lines, i);
        if !ok {
          ReadFails(lines, i, done);
          return None;
        }
        ghost var c := HunkIn(lines, i, OursEnd(lines, i), next - 1);
        AppendHunk(done, c, ours, theirs);
        ReadOn(lines, i, done, c, next);
        out := out + ours + theirs;
        done := done + [c];
        sawHunk := true;
        i := next;
      }
    }
    ReadAll(lines, done);
    if !sawHunk {
      return None;
    }
    r := Some(out);
  }

  // ---- several files: all or nothing ------------------------------------------------------

  /** A conflicted file: its path, and its lines unless it cannot be read. */
  datatype File = File(path: string, content: Option<seq<Line>>)

  predicate Resolvable(f: File) { f.content.Some? && Resolve(f.content.value).Some? }

  /** The collection phase of `autoresolve_conflict`: the texts to write, or nothing at all. */
  method CollectResolutions(files: seq<File>) returns (r: Option<map<string, seq<Line>>>)
    ensures r.Some? <==> files != [] && forall f :: f in files ==> Resolvable(f)
    ensures r.Some? ==> r.value.Keys == set f | f in files :: f.path
    ensures r.Some? ==> forall p :: p in r.value ==>
              exists f :: f in files && f.path == p && Resolve(f.content.value) == Some(r.value[p])
  {
    if files == [] {
      return None;
    }
    var resolved: map<string, seq<Line>> := map[];
    for i := 0 to |files|
      invariant forall j :: 0 <= j < i ==> Resolvable(files[j])
      invariant resolved.Keys == set f | f in files[..i] :: f.path
      invariant forall p :: p in resolved ==>
                  exists f :: f in files[..i] && f.path == p && Resolvable(f) &&
                              Resolve(f.content.value) == Some(resolved[p])
    {
      var file := files[i];
      assert files[..i + 1] == files[..i] + [file];
      if file.content.None? {
        assert !Resolvable(file);
        return None;
      }
      var text := ResolvePureAppendConflicts(file.content.value);
      if text.None? {
        assert !Resolvable(file);
        return None;
      }
      resolved := resolved[file.path := text.value];
    }
    assert files[..|files|] == files;
    r := Some(resolved);
  }
}
