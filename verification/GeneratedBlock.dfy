/** The marked inventory block of CONVENTIONS.md (hyqs/pipeline/conventions_block.py). */
module GeneratedBlock {
  import opened PyValues

  const BEGIN := "<!-- hyqs:generated:begin -->"
  const END := "<!-- hyqs:generated:end -->"

  // ---- searching -------------------------------------------------------------------

  predicate At(s: string, m: string, i: nat) {
    i + |m| <= |s| && s[i..i + |m|] == m
  }

  /** `s.find(m, from)` */
  function Find(s: string, m: string, from: nat): (r: Option<nat>)
    ensures r.Some? ==> from <= r.value && r.value + |m| <= |s| && At(s, m, r.value)
    ensures forall i: nat :: from <= i && At(s, m, i) ==> r.Some? && r.value <= i
    decreases |s| - from
  {
    if from > |s| then None
    else if At(s, m, from) then Some(from)
    else Find(s, m, from + 1)
  }

  /** A match of the block expression: the marker positions. */
  datatype Span = Span(begin: nat, end: nat)

  /** The regular expression search: the leftmost start from which the non-greedy part can reach
      an end marker, and then the nearest one. */
  function SearchFrom(s: string, i: nat): (r: Option<Span>)
    ensures r.Some? ==> i <= r.value.begin && r.value.begin + |BEGIN| <= r.value.end && r.value.end + |END| <= |s|
    decreases |s| - i
  {
    if i >= |s| then None
    else if At(s, BEGIN, i) && Find(s, END, i + |BEGIN|).Some? then Some(Span(i, Find(s, END, i + |BEGIN|).value))
    else SearchFrom(s, i + 1)
  }

  function Search(s: string): Option<Span> { SearchFrom(s, 0) }

  function EndsWith(s: string, suffix: string): bool {
    |suffix| <= |s| && s[|s| - |suffix|..] == suffix
  }

  /** The line breaks put between the existing text and a new block. */
  function Padding(content: string): string {
    if content == "" || EndsWith(content, "\n\n") then ""
    else if EndsWith(content, "\n") then "\n"
    else "\n\n"
  }

  function Block(body: string): string { BEGIN + "\n" + body + "\n" + END }

  function Replace(content: string, generated: string): string {
    var block := Block(Strip(generated));
    match Search(content)
    case Some(m) => content[..m.begin] + block + content[m.end + |END|..]
    case None => content + Padding(content) + block + "\n"
  }

  /** What stands between the markers. */
  function Body(content: string): Option<string> {
    match Search(content)
    case Some(m) => Some(content[m.begin + |BEGIN|..m.end])
    case None => None
  }

  predicate Contains(s: string, m: string) { Find(s, m, 0).Some? }

  /** No begin marker is left without an end marker after it. */
  predicate Terminated(content: string) {
    Contains(content, BEGIN) ==> Find(content, END, Find(content, BEGIN, 0).value + |BEGIN|).Some?
  }

  // ---- the markers ------------------------------------------------------------------

  /** '<' only in front, no line break, so no two markers overlap and none crosses a line end. */
  ghost predicate IsMarker(m: string) {
    m != "" && m[0] == '<' && (forall i :: 0 < i < |m| ==> m[i] != '<') && (forall i :: 0 <= i < |m| ==> m[i] != '\n')
  }

  lemma MarkersAreMarkers()
    ensures IsMarker(BEGIN) && IsMarker(END)
    ensures |BEGIN| == 29 && |END| == 27 && BEGIN[20] != END[20]
  {
  }

  /** Text that may follow without completing a marker begun before it. */
  ghost predicate Starts(y: string) { y != "" && (y[0] == '<' || y[0] == '\n') }

  lemma FindIs(s: string, m: string, from: nat, i: nat)
    requires from <= i && At(s, m, i) && forall j: nat :: from <= j < i ==> !At(s, m, j)
    ensures Find(s, m, from) == Some(i)
  {
  }

  lemma FindIsNone(s: string, m: string, from: nat)
    requires forall j: nat :: from <= j ==> !At(s, m, j)
    ensures Find(s, m, from) == None
  {
  }

  lemma AtShifts(x: string, y: string, m: string, i: nat)
    ensures At(x + y, m, |x| + i) <==> At(y, m, i)
  {
    if |x| + i + |m| <= |x + y| {
      assert (x + y)[|x| + i..|x| + i + |m|] == y[i..i + |m|];
    }
  }

  /** No marker straddles a line break or another marker. */
  lemma NoStraddle(x: string, y: string, m: string, i: nat)
    requires IsMarker(m) && Starts(y) && i < |x|
    ensures At(x + y, m, i) <==> At(x, m, i)
  {
    if i + |m| <= |x| {
      assert (x + y)[i..i + |m|] == x[i..i + |m|];
    } else if i + |m| <= |x + y| {
      assert (x + y)[i..i + |m|][|x| - i] == y[0];
    }
  }

  function Plus(k: nat, r: Option<nat>): Option<nat> {
    if r.Some? then Some(k + r.value) else None
  }

  lemma FindShifts(x: string, y: string, m: string, from: nat)
    ensures Find(x + y, m, |x| + from) == Plus(|x|, Find(y, m, from))
  {
    hide At, Find;
    forall j: nat | |x| + from <= j ensures At(x + y, m, j) <==> At(y, m, j - |x|) {
      AtShifts(x, y, m, j - |x|);
    }
    var r := Find(y, m, from);
    if r.Some? {
      FindIs(x + y, m, |x| + from, |x| + r.value);
    } else {
      FindIsNone(x + y, m, |x| + from);
    }
  }

  /** Searching a concatenation is searching the parts. */
  lemma FindInConcat(x: string, y: string, m: string, from: nat)
    requires IsMarker(m) && Starts(y) && from <= |x|
    ensures Find(x + y, m, from) ==
            if Find(x, m, from).Some? then Find(x, m, from) else Plus(|x|, Find(y, m, 0))
  {
    hide At, Find;
    forall j: nat | j < |x| ensures At(x + y, m, j) <==> At(x, m, j) { NoStraddle(x, y, m, j); }
    FindShifts(x, y, m, 0);
    var r := Find(x, m, from);
    if r.Some? {
      FindIs(x + y, m, from, r.value);
    } else {
      var later := Find(x + y, m, |x|);
      if later.Some? {
        FindIs(x + y, m, from, later.value);
      } else {
        FindIsNone(x + y, m, from);
      }
    }
  }

  lemma SkipLineBreak(y: string, m: string)
    requires IsMarker(m)
    ensures Find("\n" + y, m, 0) == Plus(1, Find(y, m, 0))
  {
    if |m| <= |"\n" + y| { assert ("\n" + y)[0..|m|][0] == '\n'; }
    FindShifts("\n", y, m, 0);
  }

  /** The search finds the first begin marker, or nothing. */
  lemma SearchIsFirst(s: string)
    ensures Search(s) ==
            match Find(s, BEGIN, 0)
            case None => None
            case Some(p) => if Find(s, END, p + |BEGIN|).Some? then Some(Span(p, Find(s, END, p + |BEGIN|).value))
                            else None
  {
    SearchFromIsFirst(s, 0);
  }

  lemma {:induction false} SearchFromIsFirst(s: string, i: nat)
    ensures SearchFrom(s, i) ==
            match Find(s, BEGIN, i)
            case None => None
            case Some(p) => if Find(s, END, p + |BEGIN|).Some? then Some(Span(p, Find(s, END, p + |BEGIN|).value))
                            else None
    decreases |s| - i
  {
    hide At;
    MarkersAreMarkers();
    if i < |s| {
      SearchFromIsFirst(s, i + 1);
    }
  }

  // ---- where a block is found again ---------------------------------------------------

  /** Where the first end marker stands after the line break that follows a begin marker. */
  function EndOffset(body: string): nat {
    match Find(body, END, 0)
    case Some(k) => k
    case None => |body| + 1
  }

  lemma EndAfterBegin(body: string, post: string)
    ensures Find("\n" + body + "\n" + END + post, END, 0) == Some(1 + EndOffset(body))
  {
    hide Find;
    MarkersAreMarkers();
    var tail := END + post;
    assert At(tail, END, 0);
    FindIs(tail, END, 0, 0);
    SkipLineBreak(tail, END);
    FindInConcat(body, "\n" + tail, END, 0);
    SkipLineBreak(body + ("\n" + tail), END);
    assert "\n" + body + "\n" + END + post == "\n" + (body + ("\n" + tail));
  }

  lemma BeginIsNoEnd()
    ensures Find(BEGIN, END, 0) == None
  {
    MarkersAreMarkers();
    forall j: nat ensures !At(BEGIN, END, j) {
      if j + |END| <= |BEGIN| {
        assert BEGIN[j..j + |END|][0] == BEGIN[j] && BEGIN[j..j + |END|][20] == BEGIN[j + 20];
      }
    }
    FindIsNone(BEGIN, END, 0);
  }

  lemma Reassociate<T>(a: seq<T>, b: seq<T>, c: seq<T>, d: seq<T>, e: seq<T>, f: seq<T>, g: seq<T>)
    ensures a + (b + c + d + e + f) + g == a + (b + (c + d + e + f + g)) == (a + b) + (c + d + e + f + g)
  {
  }

  lemma Associate<T>(a: seq<T>, b: seq<T>, c: seq<T>)
    ensures (a + b) + c == a + (b + c)
  {
  }

  lemma BeginIsFound(pre: string, rest: string)
    requires !Contains(pre, BEGIN)
    ensures Find(pre + (BEGIN + rest), BEGIN, 0) == Some(|pre|)
  {
    hide Find, Contains, IsMarker;
    MarkersAreMarkers();
    MarkerIsFound(pre, BEGIN, rest);
  }

  lemma MarkerIsFound(pre: string, m: string, rest: string)
    requires IsMarker(m) && !Contains(pre, m)
    ensures Find(pre + (m + rest), m, 0) == Some(|pre|)
  {
    hide Find;
    assert (m + rest)[0] == m[0] && (m + rest)[0..|m|] == m;
    FindIs(m + rest, m, 0, 0);
    FindInConcat(pre, m + rest, m, 0);
  }

  /** A block after text without a begin marker is found where it was put, up to the first end
      marker of its body. */
  lemma BlockIsFound(pre: string, body: string, post: string)
    requires !Contains(pre, BEGIN)
    ensures Search(pre + Block(body) + post) == Some(Span(|pre|, |pre| + |BEGIN| + 1 + EndOffset(body)))
  {
    hide Find, EndOffset, Search, Contains;
    Reassociate(pre, BEGIN, "\n", body, "\n", END, post);
    EndAfterBegin(body, post);
    BeginAndEnd(pre, "\n" + body + "\n" + END + post);
  }

  lemma BeginAndEnd(pre: string, rest: string)
    requires !Contains(pre, BEGIN) && Find(rest, END, 0).Some?
    ensures Search(pre + (BEGIN + rest)) == Some(Span(|pre|, |pre| + |BEGIN| + Find(rest, END, 0).value))
  {
    hide Find, Search, Contains;
    BeginIsFound(pre, rest);
    Associate(pre, BEGIN, rest);
    FindShifts(pre + BEGIN, rest, END, 0);
    SearchIsFirst(pre + (BEGIN + rest));
  }

  lemma SkipPadding(content: string, y: string, m: string)
    requires Starts(y) && IsMarker(m)
    ensures Find(Padding(content) + y, m, 0) == Plus(|Padding(content)|, Find(y, m, 0))
  {
    hide Find;
    SkipLineBreak(y, m);
    SkipLineBreak("\n" + y, m);
    assert "\n" + ("\n" + y) == "\n\n" + y && "" + y == y;
  }

  lemma PaddedStarts(content: string, y: string)
    requires Starts(y)
    ensures Starts(Padding(content) + y)
  {
    assert "" + y == y;
  }

  lemma StrayBeginIsFirst(content: string, tail: string)
    requires !Terminated(content) && Starts(tail)
    ensures Find(content + tail, BEGIN, 0) == Find(content, BEGIN, 0)
    ensures var from := Find(content, BEGIN, 0).value + |BEGIN|;
            from <= |content| && Find(content + tail, END, from) == Plus(|content|, Find(tail, END, 0))
  {
    hide Find;
    MarkersAreMarkers();
    FindInConcat(content, tail, BEGIN, 0);
    FindInConcat(content, tail, END, Find(content, BEGIN, 0).value + |BEGIN|);
  }

  lemma EndOfBlock(content: string, body: string)
    ensures var tail := Padding(content) + (BEGIN + ("\n" + body + "\n" + END + "\n"));
            Starts(tail) && Find(tail, END, 0) == Some(|Padding(content)| + |BEGIN| + 1 + EndOffset(body))
  {
    hide Find, EndOffset, Padding;
    MarkersAreMarkers();
    var rest := "\n" + body + "\n" + END + "\n";
    SkipPadding(content, BEGIN + rest, END);
    PaddedStarts(content, BEGIN + rest);
    BeginIsNoEnd();
    FindInConcat(BEGIN, rest, END, 0);
    EndAfterBegin(body, "\n");
  }

  /** Behind an unterminated begin marker, the appended block only closes that marker. */
  lemma StrayBeginTakesTheBlock(content: string, body: string)
    requires !Terminated(content)
    ensures var p := Find(content, BEGIN, 0).value;
            Search(content + Padding(content) + Block(body) + "\n") ==
            Some(Span(p, |content| + |Padding(content)| + |BEGIN| + 1 + EndOffset(body)))
    ensures Find(content, BEGIN, 0).value + |BEGIN| <= |content|
  {
    hide Find, EndOffset, Padding, Search, Starts;
    var tail := Padding(content) + (BEGIN + ("\n" + body + "\n" + END + "\n"));
    Reassociate(content + Padding(content), BEGIN, "\n", body, "\n", END, "\n");
    Associate(content, Padding(content), BEGIN + ("\n" + body + "\n" + END + "\n"));
    EndOfBlock(content, body);
    StrayBeginIsFirst(content, tail);
    SearchIsFirst(content + tail);
  }

  lemma PaddedHasNoBegin(content: string)
    requires !Contains(content, BEGIN)
    ensures !Contains(content + Padding(content), BEGIN)
  {
    MarkersAreMarkers();
    var pad := Padding(content);
    if pad != "" {
      NoMarkerInBreaks();
      FindInConcat(content, pad, BEGIN, 0);
    } else {
      assert content + pad == content;
    }
  }

  lemma NoMarkerInBreaks()
    ensures !Contains("\n", BEGIN) && !Contains("\n\n", BEGIN)
  {
    MarkersAreMarkers();
  }

  lemma PrefixHasNoBegin(content: string)
    requires Search(content).Some?
    ensures var p := Search(content).value.begin;
            Search(content).value.begin <= |content| && !Contains(content[..p], BEGIN) && Contains(content, BEGIN) &&
            Terminated(content)
  {
    SearchIsFirst(content);
    var p := Search(content).value.begin;
    forall j: nat ensures !At(content[..p], BEGIN, j) {
      if j + |BEGIN| <= p { assert content[..p][j..j + |BEGIN|] == content[j..j + |BEGIN|]; }
      assert At(content[..p], BEGIN, j) ==> At(content, BEGIN, j);
    }
    FindIsNone(content[..p], BEGIN, 0);
  }

  // ---- what replacing promises -----------------------------------------------------------

  /** The text before and after the block Replace writes. */
  function Before(content: string): string {
    match Search(content)
    case Some(m) => content[..m.begin]
    case None => content + Padding(content)
  }

  function After(content: string): string {
    match Search(content)
    case Some(m) => content[m.end + |END|..]
    case None => "\n"
  }

  /** The block is found again exactly where Replace put it, whatever was there before, unless
      a stray begin marker stands before it. */
  lemma ReplacedIsFound(content: string, generated: string)
    ensures Replace(content, generated) == Before(content) + Block(Strip(generated)) + After(content)
    ensures Terminated(content) ==>
              !Contains(Before(content), BEGIN) &&
              Search(Replace(content, generated)) ==
              Some(Span(|Before(content)|, |Before(content)| + |BEGIN| + 1 + EndOffset(Strip(generated))))
    ensures !Terminated(content) ==>
              Search(Replace(content, generated)).Some? &&
              Search(Replace(content, generated)).value.begin < |content| <= |Before(content)| &&
              Search(Replace(content, generated)).value.end ==
              |Before(content)| + |BEGIN| + 1 + EndOffset(Strip(generated))
  {
    hide Find, EndOffset, Padding, Strip;
    SearchIsFirst(content);
    var body := Strip(generated);
    if Search(content).Some? {
      PrefixHasNoBegin(content);
      BlockIsFound(Before(content), body, After(content));
    } else if Terminated(content) {
      PaddedHasNoBegin(content);
      BlockIsFound(Before(content), body, After(content));
    } else {
      StrayBeginTakesTheBlock(content, body);
      MarkersAreMarkers();
    }
  }

  predicate IsClean(generated: string) { !Contains(Strip(generated), END) }

  lemma CleanEnds(generated: string)
    ensures IsClean(generated) ==> EndOffset(Strip(generated)) == |Strip(generated)| + 1
    ensures !IsClean(generated) ==> EndOffset(Strip(generated)) + |END| <= |Strip(generated)|
  {
  }

  lemma BlockEnds(pre: string, body: string, post: string)
    ensures var s := pre + Block(body) + post;
            var e := |pre| + |BEGIN| + 1 + |body| + 1;
            && |s| == e + |END| + |post|
            && s[..|pre|] == pre && s[|pre| + |BEGIN|..e] == "\n" + body + "\n" && s[e + |END|..] == post
  {
    Reassociate(pre, BEGIN, "\n", body, "\n", END, post);
    SplitSix(pre, BEGIN, "\n", body, "\n", END, post);
  }

  lemma SplitSix<T>(a: seq<T>, b: seq<T>, c: seq<T>, d: seq<T>, e: seq<T>, f: seq<T>, g: seq<T>)
    ensures var s := a + (b + c + d + e + f) + g;
            var k := |a| + |b| + |c| + |d| + |e|;
            |s| == k + |f| + |g| && s[..|a|] == a && s[|a| + |b|..k] == c + d + e && s[k + |f|..] == g
  {
  }

  /** When nothing is left open and the new text is clean, a second replacement writes over the
      first one and nothing else: the last one wins. */
  lemma LastReplacementWins(content: string, first: string, second: string)
    requires Terminated(content) && IsClean(first)
    ensures Replace(Replace(content, first), second) == Replace(content, second)
  {
    hide Find, EndOffset, Padding, Strip, Search, Terminated, Block;
    ReplacedIsFound(content, first);
    ReplacedIsFound(content, second);
    CleanEnds(first);
    BlockEnds(Before(content), Strip(first), After(content));
  }

  /** Replacing twice with the same text is a no-op exactly when no begin marker is left open in
      the content and the generated text holds no end marker: the docstring says always. */
  lemma ReplaceIsIdempotent(content: string, generated: string)
    ensures Replace(Replace(content, generated), generated) == Replace(content, generated) <==>
            Terminated(content) && IsClean(generated)
  {
    if Terminated(content) && IsClean(generated) {
      LastReplacementWins(content, generated, generated);
    } else if Replace(Replace(content, generated), generated) == Replace(content, generated) {
      NotIdempotent(content, generated);
    }
  }

  lemma NotIdempotent(content: string, generated: string)
    requires !Terminated(content) || !IsClean(generated)
    ensures Replace(Replace(content, generated), generated) != Replace(content, generated)
  {
    hide Find, EndOffset, Padding, Strip, Terminated, Block, IsClean;
    var r := Replace(content, generated);
    var body := Strip(generated);
    ReplacedIsFound(content, generated);
    ReplacedIsFound(r, generated);
    CleanEnds(generated);
    SearchIsFirst(r);
    if Terminated(content) {
      BlockEnds(Before(content), body, After(content));
      BlockEnds(Before(r), body, After(r));
    } else {
      FoundIsTerminated(r);
    }
  }

  lemma FoundIsTerminated(s: string)
    requires Search(s).Some?
    ensures Terminated(s) && |Before(s)| == Search(s).value.begin
  {
    hide Find;
    SearchIsFirst(s);
  }

  lemma InnerAt(s: string, a: nat, b: nat, m: string, j: nat)
    requires a <= b <= |s| && At(s[a..b], m, j)
    ensures At(s, m, a + j)
  {
    SliceOfSlice(s, a, b, j, j + |m|);
  }

  lemma SliceOfSlice<T>(s: seq<T>, a: nat, b: nat, j: nat, k: nat)
    requires a <= b <= |s| && j <= k <= b - a
    ensures s[a..b][j..k] == s[a + j..a + k]
  {
    forall i | 0 <= i < k - j ensures s[a..b][j..k][i] == s[a + j..a + k][i] {
      assert s[a..b][j..k][i] == s[a..b][j + i];
    }
  }

  lemma NoEndInBody(s: string)
    requires Search(s).Some?
    ensures !Contains(Body(s).value, END)
  {
    SearchIsFirst(s);
    var m := Search(s).value;
    var body := Body(s).value;
    forall j: nat ensures !At(body, END, j) {
      if At(body, END, j) { InnerAt(s, m.begin + |BEGIN|, m.end, END, j); }
    }
    FindIsNone(body, END, 0);
  }

  lemma UncleanHasEnd(body: string)
    requires Contains(body, END)
    ensures Contains("\n" + body + "\n", END)
  {
    MarkersAreMarkers();
    FindInConcat(body, "\n", END, 0);
    SkipLineBreak(body + "\n", END);
    assert "\n" + (body + "\n") == "\n" + body + "\n";
  }

  /** What was written is what is read back, under the same condition. */
  lemma WrittenIsRead(content: string, generated: string)
    ensures Body(Replace(content, generated)) == Some("\n" + Strip(generated) + "\n") <==>
            Terminated(content) && IsClean(generated)
  {
    hide Find, EndOffset, Padding, Strip, Terminated, Block, Body, Replace;
    if !IsClean(generated) {
      ReplacedIsFound(content, generated);
      NoEndInBody(Replace(content, generated));
      UncleanHasEnd(Strip(generated));
    } else if Terminated(content) {
      CleanIsRead(content, generated);
    } else {
      StrayIsLonger(content, generated);
    }
  }

  lemma CleanIsRead(content: string, generated: string)
    requires Terminated(content) && IsClean(generated)
    ensures Body(Replace(content, generated)) == Some("\n" + Strip(generated) + "\n")
  {
    hide Find, EndOffset, Padding, Strip, Terminated, Block, Replace, Before, After, Contains;
    ReplacedIsFound(content, generated);
    CleanEnds(generated);
    BlockEnds(Before(content), Strip(generated), After(content));
  }

  lemma StrayIsLonger(content: string, generated: string)
    requires !Terminated(content) && IsClean(generated)
    ensures Body(Replace(content, generated)).Some? &&
            |Body(Replace(content, generated)).value| > |Strip(generated)| + 2
  {
    hide Find, EndOffset, Padding, Strip, Terminated, Block, Replace, Before, After, Contains;
    ReplacedIsFound(content, generated);
    CleanEnds(generated);
  }

  lemma MarkersStand(s: string)
    requires Search(s).Some?
    ensures var m := Search(s).value;
            && m.begin + |BEGIN| <= m.end && m.end + |END| <= |s|
            && s[m.begin..m.begin + |BEGIN|] == BEGIN && s[m.end..m.end + |END|] == END
  {
    SearchIsFirst(s);
  }

  /** A string cut at its two markers. */
  lemma FoundSplits(s: string)
    requires Search(s).Some?
    ensures s == Before(s) + (BEGIN + Body(s).value + END) + After(s)
  {
    hide Search, At, Find;
    MarkersStand(s);
    var m := Search(s).value;
    CutFour(s, m.begin, m.begin + |BEGIN|, m.end, m.end + |END|);
  }

  lemma CutFour<T>(s: seq<T>, a: nat, b: nat, c: nat, d: nat)
    requires a <= b <= c <= d <= |s|
    ensures s == s[..a] + (s[a..b] + s[b..c] + s[c..d]) + s[d..]
  {
  }

  lemma FiveFlat<T>(b: seq<T>, c: seq<T>, d: seq<T>, e: seq<T>, f: seq<T>)
    ensures b + (c + d + e) + f == b + c + d + e + f
  {
  }

  /** Writing back what is there changes nothing. */
  lemma ReadIsWritten(content: string, generated: string)
    requires Body(content) == Some("\n" + Strip(generated) + "\n")
    ensures Replace(content, generated) == content
  {
    hide Strip, Search, Find;
    FoundSplits(content);
    FiveFlat(BEGIN, "\n", Strip(generated), "\n", END);
  }

  /** An existing block is replaced in place, a new one is appended after a blank line; either
      way everything else stays. */
  lemma SurroundingsAreKept(content: string, generated: string)
    ensures Replace(content, generated) == Before(content) + Block(Strip(generated)) + After(content)
    ensures match Body(content)
            case Some(body) => content == Before(content) + (BEGIN + body + END) + After(content)
            case None => After(content) == "\n" && content <= Before(content)
                         && (Before(content) == content || Before(content) == content + "\n" ||
                             Before(content) == content + "\n\n")
                         && (content == "" || EndsWith(Before(content), "\n\n"))
  {
    hide Strip, Search, Find;
    if Search(content).Some? { FoundSplits(content); }
  }

  lemma EndIsStripped()
    ensures Strip(END) == END
  {
    MarkersAreMarkers();
    assert END[|END| - 1] == '>';
  }

  /** The two ways the docstring fails: an open begin marker, and an end marker in the text. */
  lemma IdempotenceFails()
    ensures Replace(Replace(BEGIN, "x"), "x") != Replace(BEGIN, "x")
    ensures Replace(Replace("", END), END) != Replace("", END)
  {
    hide Replace, Padding, Strip;
    BeginIsNoEnd();
    assert At(BEGIN, BEGIN, 0) && !At(BEGIN, END, |BEGIN|);
    ReplaceIsIdempotent(BEGIN, "x");
    EndIsStripped();
    assert At(END, END, 0);
    ReplaceIsIdempotent("", END);
  }

  // ---- the text of the result ------------------------------------------------------------------

  ghost predicate Reads(s: string, i: nat, text: string) { i + |text| <= |s| && s[i..i + |text|] == text }

  /** The first begin marker stands at p, and the next end marker behind it at e. */
  ghost predicate IsFirstBlock(content: string, p: nat, e: nat) {
    && Reads(content, p, "<!-- hyqs:generated:begin -->") && Reads(content, e, "<!-- hyqs:generated:end -->")
    && p + 29 <= e
    && (forall q: nat :: q < p ==> !Reads(content, q, "<!-- hyqs:generated:begin -->"))
    && (forall q: nat :: p + 29 <= q < e ==> !Reads(content, q, "<!-- hyqs:generated:end -->"))
  }

  /** The text without the white space at its ends. */
  ghost predicate IsTrimmed(text: string, body: string) {
    exists i, j :: 0 <= i <= j <= |text| && body == text[i..j] &&
                   (forall k :: 0 <= k < i || j <= k < |text| ==> IsSpace(text[k])) &&
                   (i < j ==> !IsSpace(text[i]) && !IsSpace(text[j - 1]))
  }

  /** The fewest line breaks that leave an empty line behind the content, if there is any. */
  ghost predicate IsGap(content: string, gap: string) {
    if content == "" then gap == ""
    else
      && (gap == "" || gap == "\n" || gap == "\n\n")
      && (content + gap)[|content + gap| - 1] == '\n'
      && |content + gap| >= 2 && (content + gap)[|content + gap| - 2] == '\n'
      && (gap != "" && |content| >= 2 ==> content[|content| - 1] != '\n' || content[|content| - 2] != '\n')
      && (gap == "\n\n" ==> content[|content| - 1] != '\n')
  }

  lemma FirstBlockIs(content: string)
    ensures forall p: nat, e: nat :: IsFirstBlock(content, p, e) <==> Search(content) == Some(Span(p, e))
  {
    hide Search, Find;
    assert BEGIN == "<!-- hyqs:generated:begin -->" && END == "<!-- hyqs:generated:end -->" && |BEGIN| == 29;
    SearchIsFirst(content);
    forall i: nat ensures At(content, BEGIN, i) <==> Reads(content, i, "<!-- hyqs:generated:begin -->") {}
    forall i: nat ensures At(content, END, i) <==> Reads(content, i, "<!-- hyqs:generated:end -->") {}
    hide At, Reads;
    forall p: nat, e: nat ensures IsFirstBlock(content, p, e) <==> Search(content) == Some(Span(p, e)) {
      if IsFirstBlock(content, p, e) {
        FindIs(content, BEGIN, 0, p);
        FindIs(content, END, p + 29, e);
      }
    }
  }

  lemma TrimmedIs(text: string)
    ensures IsTrimmed(text, Strip(text))
  {
    hide Strip;
    var i, j := StripIs(text);
  }

  lemma GapIs(content: string)
    ensures IsGap(content, Padding(content))
  {
  }

  /** Word for word: the first block is replaced where it stands, and the whole content stays around
      it; without one the new block follows the content and an empty line. */
  lemma ReplacedText(content: string, generated: string)
    returns (body: string, gap: string)
    ensures IsTrimmed(generated, body) && IsGap(content, gap)
    ensures forall p: nat, e: nat :: IsFirstBlock(content, p, e) ==>
              Replace(content, generated) ==
              content[..p] + ("<!-- hyqs:generated:begin -->\n" + body + "\n<!-- hyqs:generated:end -->") +
              content[e + 27..]
    ensures (forall p: nat, e: nat :: !IsFirstBlock(content, p, e)) ==>
              Replace(content, generated) ==
              content + gap + ("<!-- hyqs:generated:begin -->\n" + body + "\n<!-- hyqs:generated:end -->") + "\n"
  {
    hide IsFirstBlock, Search, Strip, Padding, IsTrimmed, IsGap;
    body, gap := Strip(generated), Padding(content);
    TrimmedIs(generated);
    GapIs(content);
    FirstBlockIs(content);
    BlockText(body);
    assert |END| == 27;
    if Search(content).Some? {
      var m := Search(content).value;
      assert IsFirstBlock(content, m.begin, m.end);
    }
  }

  lemma BlockText(body: string)
    ensures Block(body) == "<!-- hyqs:generated:begin -->\n" + body + "\n<!-- hyqs:generated:end -->"
  {
    assert BEGIN + "\n" == "<!-- hyqs:generated:begin -->\n" && "\n" + END == "\n<!-- hyqs:generated:end -->";
    Associate(BEGIN + "\n" + body, "\n", END);
  }
}
