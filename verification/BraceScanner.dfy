/** The brace scanner of hyqs/pipeline/contracts.py (`_extract_from`, `_brace_extract`). */
module BraceScanner {
  import opened PyValues

  // ---- the scanner ---------------------------------------------------------------

  function Shift(n: nat, r: Option<nat>): Option<nat> {
    if r.Some? then Some(n + r.value) else None
  }

  /** How many characters of `s` are consumed when the braces first balance. */
  function Scan(s: string, depth: int, inString: bool): Option<nat>
    decreases |s|
  {
    if s == "" then None
    else if inString then
      if s[0] == '\\' then (if |s| < 2 then None else Shift(2, Scan(s[2..], depth, true)))
      else Shift(1, Scan(s[1..], depth, s[0] != '"'))
    else if s[0] == '"' then Shift(1, Scan(s[1..], depth, true))
    else if s[0] == '{' then Shift(1, Scan(s[1..], depth + 1, false))
    else if s[0] == '}' then
      if depth - 1 == 0 then Some(1) else Shift(1, Scan(s[1..], depth - 1, false))
    else Shift(1, Scan(s[1..], depth, false))
  }

  function Extracted(s: string): Option<string> {
    var n := Scan(s, 0, false);
    if n.Some? && n.value <= |s| then Some(s[..n.value]) else None
  }

  lemma {:induction false} ScanStaysInside(s: string, depth: int, inString: bool)
    ensures Scan(s, depth, inString).Some? ==> 0 < Scan(s, depth, inString).value <= |s|
    decreases |s|
  {
    if s != "" {
      ScanStaysInside(s[1..], depth, true);
      ScanStaysInside(s[1..], depth, false);
      ScanStaysInside(s[1..], depth + 1, false);
      ScanStaysInside(s[1..], depth - 1, false);
      if |s| >= 2 { ScanStaysInside(s[2..], depth, true); }
    }
  }

  method ExtractFrom(text: string, start: nat) returns (r: Option<string>)
    requires start <= |text|
    ensures r == Extracted(text[start..])
  {
    var depth := 0;
    var inString := false;
    var i := start;
    ghost var whole := Scan(text[start..], 0, false);
    ScanStaysInside(text[start..], 0, false);
    while i < |text|
      invariant start <= i
      invariant i <= |text| ==> whole == Shift(i - start, Scan(text[i..], depth, inString))
      invariant i > |text| ==> whole == None
      decreases |text| - i
    {
      var c := text[i];
      ghost var s := text[i..];
      assert s[0] == c && s[1..] == text[i + 1..];
      if inString {
        if c == '\\' {
          if i + 2 <= |text| { assert s[2..] == text[i + 2..]; }
          i := i + 2;
          continue;
        } else if c == '"' {
          inString := false;
        }
      } else {
        if c == '"' {
          inString := true;
        } else if c == '{' {
          depth := depth + 1;
        } else if c == '}' {
          depth := depth - 1;
          if depth == 0 {
            assert whole == Some(i + 1 - start);
            assert text[start..][..i + 1 - start] == text[start..i + 1];
            return Some(text[start..i + 1]);
          }
        }
      }
      i := i + 1;
    }
    r := None;
  }

  /** The result is self-delimiting: whatever follows it, the same text is extracted. */
  lemma {:induction false} ScanIgnoresTheRest(s: string, t: string, depth: int, inString: bool)
    requires Scan(s, depth, inString).Some?
    ensures Scan(s + t, depth, inString) == Scan(s, depth, inString)
    decreases |s|
  {
    var u := s + t;
    assert u[0] == s[0] && u[1..] == s[1..] + t;
    if inString {
      if s[0] == '\\' {
        assert u[2..] == s[2..] + t;
        ScanIgnoresTheRest(s[2..], t, depth, true);
      } else {
        ScanIgnoresTheRest(s[1..], t, depth, s[0] != '"');
      }
    } else if s[0] == '"' {
      ScanIgnoresTheRest(s[1..], t, depth, true);
    } else if s[0] == '{' {
      ScanIgnoresTheRest(s[1..], t, depth + 1, false);
    } else if s[0] == '}' {
      if depth - 1 != 0 { ScanIgnoresTheRest(s[1..], t, depth - 1, false); }
    } else {
      ScanIgnoresTheRest(s[1..], t, depth, false);
    }
  }

  // ---- JSON text (RFC 8259) ----------------------------------------------------------

  /** One character of a string as written (section 7): itself, or a backslash and another;
      the hexadecimal digits after `\u` are characters of their own. */
  datatype StringChar = Plain(c: char) | Escaped(c: char)

  /** A JSON text with its whitespace (section 2). `Atom` is a literal or a number (sections 3
      and 6); any text without quotes, braces and backslashes is allowed for it. */
  datatype Json =
    | Atom(text: string)
    | Str(chars: seq<StringChar>)
    | Arr(gap: string, items: Items)
    | Obj(space: string, members: Members)

  datatype Items = NoItems | Item(before: string, value: Json, after: string, rest: Items)

  datatype Members =
    | NoMembers
    | Member(lead: string, key: seq<StringChar>, beforeColon: string, afterColon: string, member: Json, tail: string,
             others: Members)

  predicate IsPlain(t: string) {
    forall c :: c in t ==> c != '"' && c != '{' && c != '}' && c != '\\'
  }

  predicate StringIsValid(chars: seq<StringChar>) {
    forall c :: c in chars && c.Plain? ==> c.c != '"' && c.c != '\\'
  }

  predicate IsJson(j: Json) {
    match j
    case Atom(t) => IsPlain(t)
    case Str(chars) => StringIsValid(chars)
    case Arr(gap, items) => IsPlain(gap) && AreItems(items)
    case Obj(space, members) => IsPlain(space) && AreMembers(members)
  }

  predicate AreItems(items: Items) {
    match items
    case NoItems => true
    case Item(before, value, after, rest) => IsPlain(before) && IsJson(value) && IsPlain(after) && AreItems(rest)
  }

  predicate AreMembers(members: Members) {
    match members
    case NoMembers => true
    case Member(lead, key, beforeColon, afterColon, member, tail, others) =>
      && IsPlain(lead) && StringIsValid(key) && IsPlain(beforeColon) && IsPlain(afterColon)
      && IsJson(member) && IsPlain(tail) && AreMembers(others)
  }

  function PrintChars(chars: seq<StringChar>): string {
    if chars == [] then ""
    else (if chars[0].Plain? then [chars[0].c] else ['\\', chars[0].c]) + PrintChars(chars[1..])
  }

  function PrintString(chars: seq<StringChar>): string { "\"" + PrintChars(chars) + "\"" }

  function Print(j: Json): string {
    match j
    case Atom(t) => t
    case Str(chars) => PrintString(chars)
    case Arr(gap, items) => "[" + gap + PrintItems(items) + "]"
    case Obj(space, members) => "{" + space + PrintMembers(members) + "}"
  }

  function PrintItems(items: Items): string {
    match items
    case NoItems => ""
    case Item(before, value, after, rest) =>
      before + Print(value) + after + (if rest.NoItems? then "" else ",") + PrintItems(rest)
  }

  function PrintMembers(members: Members): string {
    match members
    case NoMembers => ""
    case Member(lead, key, beforeColon, afterColon, member, tail, others) =>
      lead + PrintString(key) + beforeColon + ":" + afterColon + Print(member) + tail +
      (if others.NoMembers? then "" else ",") + PrintMembers(others)
  }

  // ---- the scanner passes over what is printed ------------------------------------------

  /** Scanning t first costs |t| characters and changes nothing else. */
  ghost predicate Passes(t: string, depth: int) {
    forall rest :: PassesOver(t, rest, depth)
  }

  ghost predicate PassesOver(t: string, rest: string, depth: int) {
    Scan(t + rest, depth, false) == Shift(|t|, Scan(rest, depth, false))
  }

  lemma PassesConcat(a: string, b: string, depth: int)
    requires Passes(a, depth) && Passes(b, depth)
    ensures Passes(a + b, depth)
  {
    forall rest ensures PassesOver(a + b, rest, depth) {
      assert a + b + rest == a + (b + rest);
      assert PassesOver(a, b + rest, depth) && PassesOver(b, rest, depth);
    }
  }

  lemma {:induction false} PlainPasses(t: string, depth: int)
    requires IsPlain(t)
    ensures Passes(t, depth)
  {
    forall rest ensures PassesOver(t, rest, depth) {
      PlainScan(t, rest, depth);
    }
  }

  lemma {:induction false} PlainScan(t: string, rest: string, depth: int)
    requires IsPlain(t)
    ensures Scan(t + rest, depth, false) == Shift(|t|, Scan(rest, depth, false))
  {
    if t == "" {
      assert t + rest == rest;
    } else {
      assert (t + rest)[1..] == t[1..] + rest && t[0] in t;
      assert forall c :: c in t[1..] ==> c in t;
      PlainScan(t[1..], rest, depth);
    }
  }

  lemma {:induction false} CharsScan(chars: seq<StringChar>, rest: string, depth: int)
    requires StringIsValid(chars)
    ensures Scan(PrintChars(chars) + "\"" + rest, depth, true) ==
            Shift(|PrintChars(chars)| + 1, Scan(rest, depth, false))
  {
    var text := PrintChars(chars) + "\"" + rest;
    if chars == [] {
      assert text[1..] == rest;
    } else {
      assert chars[0] in chars && forall c :: c in chars[1..] ==> c in chars;
      CharsScan(chars[1..], rest, depth);
      var more := PrintChars(chars[1..]) + "\"" + rest;
      if chars[0].Plain? {
        assert text[1..] == more;
      } else {
        assert text[0] == '\\' && text[2..] == more;
      }
    }
  }

  lemma StringPasses(chars: seq<StringChar>, depth: int)
    requires StringIsValid(chars)
    ensures Passes(PrintString(chars), depth)
  {
    forall rest ensures PassesOver(PrintString(chars), rest, depth) {
      CharsScan(chars, rest, depth);
      assert (PrintString(chars) + rest)[1..] == PrintChars(chars) + "\"" + rest;
    }
  }

  /** A matched pair of braces around something the scanner passes at one level deeper. */
  lemma BracesPass(body: string, depth: int)
    requires Passes(body, depth + 1) && depth >= 1
    ensures Passes("{" + body + "}", depth)
  {
    forall rest ensures PassesOver("{" + body + "}", rest, depth) {
      assert PassesOver(body, "}" + rest, depth + 1);
      assert ("{" + body + "}" + rest)[1..] == body + ("}" + rest);
      assert ("}" + rest)[1..] == rest;
    }
  }

  lemma BracketsPass(gap: string, items: string, depth: int)
    requires IsPlain(gap) && Passes(items, depth)
    ensures Passes("[" + gap + items + "]", depth)
  {
    PlainPasses("[", depth);
    PlainPasses(gap, depth);
    PlainPasses("]", depth);
    PassesConcat("[", gap, depth);
    PassesConcat("[" + gap, items, depth);
    PassesConcat("[" + gap + items, "]", depth);
  }

  lemma {:induction false} JsonPasses(j: Json, depth: int)
    requires IsJson(j) && depth >= 1
    ensures Passes(Print(j), depth)
    decreases j
  {
    match j
    case Atom(t) => PlainPasses(t, depth);
    case Str(chars) => StringPasses(chars, depth);
    case Arr(gap, items) =>
      ItemsPass(items, depth);
      BracketsPass(gap, PrintItems(items), depth);
    case Obj(space, members) =>
      PlainPasses(space, depth + 1);
      MembersPass(members, depth + 1);
      PassesConcat(space, PrintMembers(members), depth + 1);
      BracesPass(space + PrintMembers(members), depth);
      assert "{" + (space + PrintMembers(members)) + "}" == Print(j);
  }

  lemma {:induction false} ItemsPass(items: Items, depth: int)
    requires AreItems(items) && depth >= 1
    ensures Passes(PrintItems(items), depth)
    decreases items
  {
    match items
    case NoItems => PlainPasses("", depth);
    case Item(before, value, after, rest) =>
      var comma := if rest.NoItems? then "" else ",";
      PlainPasses(before, depth);
      JsonPasses(value, depth);
      PlainPasses(after, depth);
      PlainPasses(comma, depth);
      ItemsPass(rest, depth);
      PassesConcat(before, Print(value), depth);
      PassesConcat(before + Print(value), after, depth);
      PassesConcat(before + Print(value) + after, comma, depth);
      PassesConcat(before + Print(value) + after + comma, PrintItems(rest), depth);
  }

  lemma {:induction false} MembersPass(members: Members, depth: int)
    requires AreMembers(members) && depth >= 1
    ensures Passes(PrintMembers(members), depth)
    decreases members
  {
    match members
    case NoMembers => PlainPasses("", depth);
    case Member(lead, key, beforeColon, afterColon, member, tail, others) =>
      var comma := if others.NoMembers? then "" else ",";
      MemberHeadPasses(lead, key, beforeColon, afterColon, depth);
      var head := lead + PrintString(key) + beforeColon + ":" + afterColon;
      JsonPasses(member, depth);
      PlainPasses(tail, depth);
      PlainPasses(comma, depth);
      MembersPass(others, depth);
      PassesConcat(head, Print(member), depth);
      PassesConcat(head + Print(member), tail, depth);
      PassesConcat(head + Print(member) + tail, comma, depth);
      PassesConcat(head + Print(member) + tail + comma, PrintMembers(others), depth);
  }

  lemma MemberHeadPasses(lead: string, key: seq<StringChar>, beforeColon: string, afterColon: string, depth: int)
    requires IsPlain(lead) && StringIsValid(key) && IsPlain(beforeColon) && IsPlain(afterColon)
    ensures Passes(lead + PrintString(key) + beforeColon + ":" + afterColon, depth)
  {
    PlainPasses(lead, depth);
    StringPasses(key, depth);
    PlainPasses(beforeColon, depth);
    PlainPasses(":", depth);
    PlainPasses(afterColon, depth);
    PassesConcat(lead, PrintString(key), depth);
    PassesConcat(lead + PrintString(key), beforeColon, depth);
    PassesConcat(lead + PrintString(key) + beforeColon, ":", depth);
    PassesConcat(lead + PrintString(key) + beforeColon + ":", afterColon, depth);
  }

  /** Started at the first character of any printed JSON object, whatever braces, quotes and
      backslashes its strings contain and whatever text follows, the scanner returns exactly
      that object. */
  lemma ObjectIsExtracted(obj: Json, post: string)
    requires IsJson(obj) && obj.Obj?
    ensures Extracted(Print(obj) + post) == Some(Print(obj))
  {
    var body := obj.space + PrintMembers(obj.members);
    PlainPasses(obj.space, 1);
    MembersPass(obj.members, 1);
    PassesConcat(obj.space, PrintMembers(obj.members), 1);
    var text := Print(obj) + post;
    assert Print(obj) == "{" + body + "}";
    assert text[1..] == body + ("}" + post);
    assert Scan(text, 0, false) == Shift(1, Scan(text[1..], 1, false));
    assert PassesOver(body, "}" + post, 1);
    assert text[..|body| + 2] == Print(obj);
  }

  // ---- _brace_extract ------------------------------------------------------------------

  /** `text.rfind("{")`, one past it: 0 when there is none. */
  function LastBrace(text: string): (r: nat)
    ensures r <= |text|
    ensures r > 0 ==> text[r - 1] == '{'
    ensures forall i :: r <= i < |text| ==> text[i] != '{'
  {
    if text == "" then 0
    else if text[|text| - 1] == '{' then |text|
    else LastBrace(text[..|text| - 1])
  }

  method BraceExtract(text: string) returns (r: Option<string>)
    ensures r == BraceExtracted(text)
  {
    var after := LastBrace(text);
    if after == 0 {
      return None;
    }
    r := ExtractFrom(text, after - 1);
  }

  function BraceExtracted(text: string): Option<string> {
    var after := LastBrace(text);
    if after == 0 then None else Extracted(text[after - 1..])
  }

  /** "The last bare object" is found exactly when the object holds no second opening brace,
      neither of a nested object nor inside a string: the search starts at the last brace. */
  lemma LastObjectIsFound(pre: string, obj: Json, post: string)
    requires IsJson(obj) && obj.Obj? && '{' !in post
    ensures BraceExtracted(pre + Print(obj) + post) == Some(Print(obj)) <==> '{' !in Print(obj)[1..]
  {
    var text := pre + Print(obj) + post;
    var after := LastBrace(text);
    assert Print(obj)[0] == '{' && text[|pre|] == '{';
    assert after >= |pre| + 1;
    if '{' !in Print(obj)[1..] {
      forall i | |pre| < i < |text| ensures text[i] != '{' {
        if i < |pre| + |Print(obj)| {
          assert text[i] == Print(obj)[1..][i - |pre| - 1];
        } else {
          assert text[i] == post[i - |pre| - |Print(obj)|];
        }
      }
      assert after - 1 == |pre|;
      assert text[|pre|..] == Print(obj) + post;
      ObjectIsExtracted(obj, post);
    } else {
      var k :| 0 <= k < |Print(obj)| - 1 && Print(obj)[1..][k] == '{';
      assert text[|pre| + 1 + k] == '{';
      var found := text[after - 1..];
      assert Print(obj)[k + 1] == '{';
      assert forall i :: 0 < i < |found| ==> found[i] == text[after - 1 + i] && found[i] != '{';
      if Extracted(found).Some? && |Extracted(found).value| > k + 1 {
        assert Extracted(found).value[k + 1] == found[k + 1];
      }
    }
  }

  /** Printing gives ordinary JSON text. */
  lemma PrintedIsText()
    ensures var list := Arr("", Item("", Atom("1"), "", Item(" ", Str([Escaped('n')]), "", NoItems)));
            var second := Member(" ", [Plain('b')], " ", "", Obj(" ", NoMembers), "", NoMembers);
            var obj := Obj("", Member("", [Plain('a')], "", " ", list, "", second));
            IsJson(obj) && Print(obj) == "{\"a\": [1, \"\\n\"], \"b\" :{ }}"
  {
    var list := Arr("", Item("", Atom("1"), "", Item(" ", Str([Escaped('n')]), "", NoItems)));
    var second := Member(" ", [Plain('b')], " ", "", Obj(" ", NoMembers), "", NoMembers);
    ListIsText();
    SecondIsText();
    OneCharIsText(Plain('a'));
    hide Print, PrintString;
    assert PrintMembers(Member("", [Plain('a')], "", " ", list, "", second)) ==
           "" + PrintString([Plain('a')]) + "" + ":" + " " + Print(list) + "" + "," + PrintMembers(second);
    ObjectIsText(Member("", [Plain('a')], "", " ", list, "", second));
  }

  lemma ObjectIsText(members: Members)
    ensures Print(Obj("", members)) == "{" + PrintMembers(members) + "}"
  {
    assert "{" + "" == "{";
  }

  lemma OneCharIsText(c: StringChar)
    ensures PrintString([c]) == if c.Plain? then ['"', c.c, '"'] else ['"', '\\', c.c, '"']
  {
    assert [c][1..] == [] && PrintChars([]) == "";
    assert PrintChars([c]) == if c.Plain? then [c.c] else ['\\', c.c];
  }

  lemma ListIsText()
    ensures var list := Arr("", Item("", Atom("1"), "", Item(" ", Str([Escaped('n')]), "", NoItems)));
            IsJson(list) && Print(list) == "[1, \"\\n\"]"
  {
    OneCharIsText(Escaped('n'));
    hide PrintString;
    assert PrintItems(Item(" ", Str([Escaped('n')]), "", NoItems)) == " \"\\n\"";
    assert PrintItems(Item("", Atom("1"), "", Item(" ", Str([Escaped('n')]), "", NoItems))) == "1, \"\\n\"";
  }

  lemma SecondIsText()
    ensures var second := Member(" ", [Plain('b')], " ", "", Obj(" ", NoMembers), "", NoMembers);
            AreMembers(second) && PrintMembers(second) == " \"b\" :{ }"
  {
    OneCharIsText(Plain('b'));
    hide PrintString;
    assert Print(Obj(" ", NoMembers)) == "{ }";
  }

  /** So the outer object of nested ones is missed: for `{"a":{}}` the answer is `{}`. */
  lemma NestedObjectIsMissed()
    ensures var inner := Obj("", NoMembers);
            var outer := Obj("", Member("", [Plain('a')], "", "", inner, "", NoMembers));
            && IsJson(outer) && Print(outer) == "{\"a\":{}}"
            && BraceExtracted(Print(outer)) == Some(Print(inner))
  {
    var inner := Obj("", NoMembers);
    var outer := Obj("", Member("", [Plain('a')], "", "", inner, "", NoMembers));
    assert PrintChars([Plain('a')]) == "a" by { assert [Plain('a')][1..] == []; }
    assert PrintString([Plain('a')]) == "\"a\"";
    assert Print(inner) == "{}";
    var text := "{\"a\":{}}";
    assert Print(outer) == text;
    assert LastBrace(text[..6]) == 6;
    assert text[..7][..6] == text[..6] && LastBrace(text[..7]) == 6;
    assert LastBrace(text) == 6;
    assert text[5..] == Print(inner) + "}";
    ObjectIsExtracted(inner, "}");
  }
}
