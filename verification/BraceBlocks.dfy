/** What the brace scanner of hyqs/pipeline/contracts.py returns for any text: the scanner against a
    grammar of its own. */
module BraceBlocks {
  import opened PyValues
  import opened BraceScanner

  /** What may stand between matching braces: any character but quotes and braces, strings, and
      blocks in braces. */
  datatype Parts =
    | NoParts
    | Char(c: char, after: Parts)
    | Quoted(chars: seq<StringChar>, behind: Parts)
    | Braced(inner: Parts, rest: Parts)

  predicate AreParts(parts: Parts) {
    match parts
    case NoParts => true
    case Char(c, after) => c != '"' && c != '{' && c != '}' && AreParts(after)
    case Quoted(chars, behind) => StringIsValid(chars) && AreParts(behind)
    case Braced(inner, rest) => AreParts(inner) && AreParts(rest)
  }

  function PrintParts(parts: Parts): string {
    match parts
    case NoParts => ""
    case Char(c, after) => [c] + PrintParts(after)
    case Quoted(chars, behind) => "\"" + PrintChars(chars) + "\"" + PrintParts(behind)
    case Braced(inner, rest) => "{" + PrintParts(inner) + "}" + PrintParts(rest)
  }

  // ---- the scanner passes over parts ---------------------------------------------------------------

  lemma {:induction false} PartsPass(parts: Parts, depth: int)
    requires AreParts(parts) && depth >= 1
    ensures Passes(PrintParts(parts), depth)
    decreases parts
  {
    hide Passes, PassesOver, Scan;
    match parts
    case NoParts => PlainPasses("", depth);
    case Char(c, after) =>
      CharPasses(c, depth);
      PartsPass(after, depth);
      PassesConcat([c], PrintParts(after), depth);
    case Quoted(chars, behind) =>
      StringPasses(chars, depth);
      PartsPass(behind, depth);
      PassesConcat(PrintString(chars), PrintParts(behind), depth);
    case Braced(inner, rest) =>
      PartsPass(inner, depth + 1);
      BracesPass(PrintParts(inner), depth);
      PartsPass(rest, depth);
      PassesConcat("{" + PrintParts(inner) + "}", PrintParts(rest), depth);
  }

  lemma CharPasses(c: char, depth: int)
    requires c != '"' && c != '{' && c != '}'
    ensures Passes([c], depth)
  {
    forall rest ensures PassesOver([c], rest, depth) {
      assert ([c] + rest)[1..] == rest;
    }
  }

  // ---- what the scanner stops at was parts -----------------------------------------------------------

  lemma {:induction false} CharsFound(s: string, depth: int) returns (chars: seq<StringChar>, k: nat)
    requires Scan(s, depth, true).Some?
    ensures StringIsValid(chars) && k <= |s| && s[..k] == PrintChars(chars) + "\""
    ensures Scan(s[k..], depth, false).Some? && Scan(s, depth, true) == Shift(k, Scan(s[k..], depth, false))
    decreases |s|
  {
    hide Scan, PrintChars;
    ScanStepInString(s, depth);
    if s[0] == '"' {
      chars, k := [], 1;
      NothingPrinted();
    } else {
      var n := if s[0] == '\\' then 2 else 1;
      var more, j := CharsFound(s[n..], depth);
      var first := if s[0] == '\\' then Escaped(s[1]) else Plain(s[0]);
      chars, k := [first] + more, n + j;
      FirstPrinted(s, n, first, more);
      assert s == s[..n] + s[n..];
      HeadInFront(s[..n], s[n..], j, PrintChars(more), "\"");
    }
  }

  lemma NothingPrinted()
    ensures PrintChars([]) == ""
  {
  }

  lemma FirstPrinted(s: string, n: nat, first: StringChar, more: seq<StringChar>)
    requires n <= |s| && s[..n] == if first.Plain? then [first.c] else ['\\', first.c]
    ensures PrintChars([first] + more) == s[..n] + PrintChars(more)
  {
    assert ([first] + more)[1..] == more;
  }

  /** One step of the scanner inside a string. */
  lemma ScanStepInString(s: string, depth: int)
    ensures s == "" ==> Scan(s, depth, true) == None
    ensures s != "" && s[0] == '"' ==> Scan(s, depth, true) == Shift(1, Scan(s[1..], depth, false))
    ensures s != "" && s[0] == '\\' ==>
              Scan(s, depth, true) == if |s| < 2 then None else Shift(2, Scan(s[2..], depth, true))
    ensures s != "" && s[0] != '"' && s[0] != '\\' ==> Scan(s, depth, true) == Shift(1, Scan(s[1..], depth, true))
  {
  }

  /** The text of the parts, the closing brace behind them, and the way on from there. */
  ghost predicate ClosesAt(s: string, depth: int, parts: Parts, m: nat) {
    && AreParts(parts) && 0 < m <= |s| && s[..m] == PrintParts(parts) + "}"
    && if depth == 1 then Scan(s, depth, false) == Some(m)
       else Scan(s[m..], depth - 1, false).Some? && Scan(s, depth, false) == Shift(m, Scan(s[m..], depth - 1, false))
  }

  lemma {:induction false} PartsFound(s: string, depth: int) returns (parts: Parts, m: nat)
    requires depth >= 1 && Scan(s, depth, false).Some?
    ensures ClosesAt(s, depth, parts, m) && AreParts(parts)
    decreases |s|
  {
    hide Scan, ClosesAt;
    ScanStep(s, depth);
    if s[0] == '}' {
      parts, m := NoParts, 1;
      ClosedAtOnce(s, depth);
    } else if s[0] == '"' {
      var chars, k := CharsFound(s[1..], depth);
      var behind, j := PartsFound(s[1..][k..], depth);
      parts, m := Quoted(chars, behind), 1 + k + j;
      OneInFront(s, k, '"', PrintChars(chars), "\"");
      ClosedBehind(s, depth, "\"" + PrintChars(chars) + "\"", s[1..][k..], behind, j, parts);
    } else if s[0] == '{' {
      var inner, k := PartsFound(s[1..], depth + 1);
      BlockIs(s[1..], depth, inner, k);
      var rest, j := PartsFound(s[1..][k..], depth);
      parts, m := Braced(inner, rest), 1 + k + j;
      OneInFront(s, k, '{', PrintParts(inner), "}");
      ClosedBehind(s, depth, "{" + PrintParts(inner) + "}", s[1..][k..], rest, j, parts);
    } else {
      var after, j := PartsFound(s[1..], depth);
      parts, m := Char(s[0], after), 1 + j;
      ClosedBehind(s, depth, [s[0]], s[1..], after, j, parts);
    }
  }

  lemma OneInFront<T>(s: seq<T>, k: nat, first: T, body: seq<T>, close: seq<T>)
    requires s != [] && s[0] == first && k <= |s| - 1 && s[1..][..k] == body + close
    ensures s == ([first] + body + close) + s[1..][k..]
  {
    assert s == [first] + (s[1..][..k] + s[1..][k..]);
  }

  /** One step of the scanner outside a string. */
  lemma ScanStep(s: string, depth: int)
    ensures s == "" ==> Scan(s, depth, false) == None
    ensures s != "" && s[0] == '"' ==> Scan(s, depth, false) == Shift(1, Scan(s[1..], depth, true))
    ensures s != "" && s[0] == '{' ==> Scan(s, depth, false) == Shift(1, Scan(s[1..], depth + 1, false))
    ensures s != "" && s[0] == '}' ==>
              Scan(s, depth, false) == if depth == 1 then Some(1) else Shift(1, Scan(s[1..], depth - 1, false))
    ensures s != "" && s[0] != '"' && s[0] != '{' && s[0] != '}' ==>
              Scan(s, depth, false) == Shift(1, Scan(s[1..], depth, false))
  {
  }

  lemma ClosedAtOnce(s: string, depth: int)
    requires depth >= 1 && Scan(s, depth, false).Some? && s != "" && s[0] == '}'
    ensures ClosesAt(s, depth, NoParts, 1)
  {
    hide Scan;
    ScanStep(s, depth);
    assert s[..1] == "}";
  }

  lemma BlockIs(s: string, depth: int, inner: Parts, k: nat)
    requires depth >= 1 && ClosesAt(s, depth + 1, inner, k)
    ensures AreParts(inner) && 0 < k <= |s| && s[..k] == PrintParts(inner) + "}"
    ensures Scan(s[k..], depth, false).Some? && Scan(s, depth + 1, false) == Shift(k, Scan(s[k..], depth, false))
  {
    hide Scan, PrintParts, AreParts;
  }

  /** What closes behind some text the scanner passes, closes with that text in front. */
  lemma ClosedBehind(s: string, depth: int, head: string, rest: string, behind: Parts, j: nat, parts: Parts)
    requires ClosesAt(rest, depth, behind, j) && s == head + rest
    requires Scan(s, depth, false) == Shift(|head|, Scan(rest, depth, false))
    requires AreParts(parts) && PrintParts(parts) == head + PrintParts(behind)
    ensures ClosesAt(s, depth, parts, |head| + j)
  {
    hide Scan, PrintParts, AreParts;
    HeadInFront(head, rest, j, PrintParts(behind), "}");
  }

  lemma HeadInFront<T>(head: seq<T>, rest: seq<T>, j: nat, body: seq<T>, close: seq<T>)
    requires j <= |rest| && rest[..j] == body + close
    ensures (head + rest)[..|head| + j] == head + body + close && (head + rest)[|head| + j..] == rest[j..]
  {
    assert (head + rest)[..|head| + j] == head + rest[..j];
  }

  /** Started at an opening brace, the scanner returns a text exactly when the input begins with that
      text and it is parts in braces: the shortest balanced text, and nothing if there is none. */
  lemma ExtractedIff(s: string, t: string)
    requires s != "" && s[0] == '{'
    ensures Extracted(s) == Some(t) <==>
            exists parts :: AreParts(parts) && t == "{" + PrintParts(parts) + "}" && t <= s
  {
    hide Scan, PrintParts, AreParts;
    ScanStaysInside(s, 0, false);
    ScanStep(s, 0);
    if Extracted(s) == Some(t) {
      var parts, m := PartsFound(s[1..], 1);
      assert t == s[..1 + m] == [s[0]] + s[1..][..m];
      assert t == "{" + PrintParts(parts) + "}";
    }
    if parts :| AreParts(parts) && t == "{" + PrintParts(parts) + "}" && t <= s {
      PartsPass(parts, 1);
      ScanStep("}" + s[|t|..], 1);
      var body, rest := PrintParts(parts), "}" + s[|t|..];
      assert s[1..] == body + rest && rest[0] == '}';
      assert PassesOver(body, rest, 1);
      assert Scan(rest, 1, false) == Some(1);
      assert Scan(s, 0, false) == Some(|t|) && s[..|t|] == t;
    }
  }

  /** From a text, what `_brace_extract` returns: parts in braces at its last opening brace. */
  lemma BraceExtractedIff(text: string, t: string)
    ensures BraceExtracted(text) == Some(t) <==>
            exists p: nat, parts ::
              && p < |text| && text[p] == '{' && (forall i :: p < i < |text| ==> text[i] != '{')
              && AreParts(parts) && t == "{" + PrintParts(parts) + "}" && t <= text[p..]
  {
    var after := LastBrace(text);
    if after > 0 { ExtractedIff(text[after - 1..], t); }
    forall p: nat | p < |text| && text[p] == '{' && (forall i :: p < i < |text| ==> text[i] != '{')
      ensures after == p + 1 {}
  }
}
