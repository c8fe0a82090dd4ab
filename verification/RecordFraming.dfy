/** How `CodexBackend.stream` cuts standard output into records (hyqs/pipeline/codex.py). */
module RecordFraming {

  newtype Byte = x: int | 0 <= x < 256

  type Bytes = seq<Byte>

  const NEWLINE: Byte := 10
  const CHUNK_SIZE := 64 * 1024
  const MAX_EVENT_SIZE := 8 * 1024 * 1024
  const TAIL_SIZE := 64 * 1024

  // ---- the batch view ------------------------------------------------------------

  /** `s.find(b"\n")` */
  function FindNewline(s: Bytes): (n: int)
    ensures -1 <= n < |s|
    ensures n >= 0 ==> s[n] == NEWLINE && forall i :: 0 <= i < n ==> s[i] != NEWLINE
    ensures n < 0 ==> forall i :: 0 <= i < |s| ==> s[i] != NEWLINE
  {
    if s == [] then -1
    else if s[0] == NEWLINE then 0
    else
      var n := FindNewline(s[1..]);
      if n < 0 then -1 else n + 1
  }

  /** `s.split(b"\n")`: the segments between newlines, the last one unterminated. */
  function Segments(s: Bytes): (r: seq<Bytes>)
    ensures |r| >= 1
    decreases |s|
  {
    var n := FindNewline(s);
    if n < 0 then [s] else [s[..n]] + Segments(s[n + 1..])
  }

  function Join(segments: seq<Bytes>): Bytes
    requires |segments| >= 1
  {
    if |segments| == 1 then segments[0] else segments[0] + [NEWLINE] + Join(segments[1..])
  }

  /** The segments are the stream cut at its newlines, and nothing else. */
  lemma {:induction false} SegmentsJoin(s: Bytes)
    ensures Join(Segments(s)) == s
    ensures forall seg :: seg in Segments(s) ==> NEWLINE !in seg
    decreases |s|
  {
    var n := FindNewline(s);
    if n >= 0 {
      SegmentsJoin(s[n + 1..]);
      JoinCons(s[..n], Segments(s[n + 1..]));
      CutAt(s, n);
    }
  }

  lemma JoinCons(first: Bytes, rest: seq<Bytes>)
    requires |rest| >= 1
    ensures Join([first] + rest) == first + [NEWLINE] + Join(rest)
  {
    assert ([first] + rest)[1..] == rest;
  }

  lemma CutAt<T>(s: seq<T>, n: nat)
    requires n < |s|
    ensures s == s[..n] + [s[n]] + s[n + 1..]
  {
  }

  ghost predicate SomeTooLong(segments: seq<Bytes>, max: nat) {
    exists seg :: seg in segments && |seg| > max
  }

  /** The records due: the segments before the first one over the limit; an empty last segment
      is not a record. */
  function Due(segments: seq<Bytes>, max: nat): seq<Bytes> {
    if segments == [] || |segments[0]| > max then []
    else if |segments| == 1 && segments[0] == [] then []
    else [segments[0]] + Due(segments[1..], max)
  }

  /** The bytes read up to the end of the stream, which an empty read marks. */
  function Stream(chunks: seq<Bytes>): Bytes {
    if chunks == [] || chunks[0] == [] then [] else chunks[0] + Stream(chunks[1..])
  }

  function Last(s: Bytes, size: nat): Bytes {
    if |s| <= size then s else s[|s| - size..]
  }

  // ---- facts about cutting ----------------------------------------------------------

  lemma FirstCut(s: Bytes)
    requires FindNewline(s) >= 0
    ensures Segments(s) == [s[..FindNewline(s)]] + Segments(s[FindNewline(s) + 1..])
  {
  }

  lemma FirstSegment(s: Bytes)
    ensures var n := FindNewline(s);
            && (n < 0 ==> Segments(s) == [s])
            && (n >= 0 ==> Segments(s)[0] == s[..n] && Segments(s)[1..] == Segments(s[n + 1..]))
  {
    var n := FindNewline(s);
    if n >= 0 {
      FirstCut(s);
      HeadAndRest(s[..n], Segments(s[n + 1..]));
    }
  }

  lemma HeadAndRest<T>(h: T, rest: seq<T>)
    ensures ([h] + rest)[0] == h && ([h] + rest)[1..] == rest
  {
  }

  lemma SegmentsAppendStep(s: Bytes, t: Bytes)
    requires FindNewline(s) >= 0
    ensures var n := FindNewline(s);
            Segments(s) == [s[..n]] + Segments(s[n + 1..]) && Segments(s + t) == [s[..n]] + Segments(s[n + 1..] + t)
  {
    hide Segments, FindNewline;
    var n := FindNewline(s);
    FirstNewlineAppend(s, t);
    FirstCut(s);
    FirstCut(s + t);
    CutInFront(s, t, n);
  }

  lemma CutInFront<T>(s: seq<T>, t: seq<T>, n: nat)
    requires n < |s|
    ensures (s + t)[..n] == s[..n] && (s + t)[n + 1..] == s[n + 1..] + t
  {
  }

  lemma Uncons<T>(h: T, tail: seq<T>, init: seq<T>, last: T)
    requires [h] + tail == init + [last] && |tail| >= 1
    ensures init != [] && init[0] == h && tail == init[1..] + [last]
  {
    assert ([h] + tail)[0] == h && ([h] + tail)[1..] == tail;
    assert (init + [last])[1..] == init[1..] + [last];
  }

  lemma Recons<T>(h: T, init: seq<T>, more: seq<T>)
    requires init != [] && init[0] == h
    ensures [h] + (init[1..] + more) == init + more
  {
  }

  /** Bytes that arrive later only affect the unterminated segment. */
  lemma {:induction false} SegmentsAppend(s: Bytes, t: Bytes, init: seq<Bytes>, last: Bytes)
    requires Segments(s) == init + [last]
    ensures Segments(s + t) == init + Segments(last + t)
    decreases |s|
  {
    var n := FindNewline(s);
    if n < 0 {
      SingletonSplit(s, init, last);
    } else {
      SegmentsAppendStep(s, t);
      Uncons(s[..n], Segments(s[n + 1..]), init, last);
      SegmentsAppend(s[n + 1..], t, init[1..], last);
      Recons(s[..n], init, Segments(last + t));
    }
  }

  lemma SingletonSplit<T>(x: T, init: seq<T>, last: T)
    requires [x] == init + [last]
    ensures init == [] && last == x
  {
    assert |[x]| == 1;
    assert (init + [last])[|init|] == last;
  }

  lemma FirstNewlineAppend(s: Bytes, t: Bytes)
    requires FindNewline(s) >= 0
    ensures FindNewline(s + t) == FindNewline(s)
  {
    var n, m := FindNewline(s), FindNewline(s + t);
    assert forall i :: 0 <= i <= n ==> (s + t)[i] == s[i];
  }

  /** The first segment only grows. */
  lemma FirstSegmentGrows(s: Bytes, t: Bytes)
    requires NEWLINE !in s
    ensures |Segments(s + t)[0]| >= |s|
  {
    assert forall i :: 0 <= i < |s| ==> (s + t)[i] == s[i] && s[i] in s;
    FirstSegment(s + t);
  }

  lemma {:induction false} DueStopsAtFirstLong(before: seq<Bytes>, after: seq<Bytes>, max: nat)
    requires |after| >= 1 && |after[0]| > max && forall b :: b in before ==> |b| <= max
    ensures Due(before + after, max) == before && SomeTooLong(before + after, max)
  {
    var all := before + after;
    assert after[0] in after && after[0] in all;
    if before == [] {
      assert all == after;
    } else {
      assert before[0] in before && all[1..] == before[1..] + after;
      assert forall b :: b in before[1..] ==> b in before;
      DueStopsAtFirstLong(before[1..], after, max);
    }
  }

  lemma {:induction false} DueIsAll(before: seq<Bytes>, last: Bytes, max: nat)
    requires |last| <= max && forall b :: b in before ==> |b| <= max
    ensures Due(before + [last], max) == before + (if last == [] then [] else [last])
    ensures !SomeTooLong(before + [last], max)
  {
    var all := before + [last];
    if before != [] {
      assert before[0] in before && all[1..] == before[1..] + [last];
      assert forall b :: b in before[1..] ==> b in before;
      DueIsAll(before[1..], last, max);
    } else {
      assert all[1..] == [];
    }
  }

  // ---- the streaming loop --------------------------------------------------------------

  /** `_append_tail` */
  method AppendTail(tail: Bytes, data: Bytes, size: nat, ghost seen: Bytes) returns (r: Bytes)
    requires size > 0 && tail == Last(seen, size)
    ensures r == Last(seen + data, size)
  {
    r := tail + data;
    if |r| > size {
      r := r[|r| - size..];
    }
  }

  /** The inner loop: every complete record leaves the buffer; `long` is set at the first one
      over the limit, and when what remains is over it. */
  method Drain(buffer0: Bytes, max: nat) returns (records: seq<Bytes>, buffer: Bytes, long: bool)
    ensures forall r :: r in records ==> |r| <= max
    ensures !long ==> Segments(buffer0) == records + [buffer] && |buffer| <= max
    ensures long ==> exists cut: nat ::
              cut <= |buffer0| && IsCut(buffer0, records, cut) && LongHead(buffer0[cut..], max)
    ensures !long ==> NEWLINE !in buffer
  {
    hide Segments, FindNewline, IsCut, LongHead;
    records, buffer, long := [], buffer0, false;
    ghost var cut: nat := 0;
    NothingCut(buffer0);
    while true
      invariant cut <= |buffer0| && buffer == buffer0[cut..] && IsCut(buffer0, records, cut)
      invariant forall r :: r in records ==> |r| <= max
      decreases |buffer|
    {
      var newline := FindNewline(buffer);
      if newline < 0 {
        break;
      }
      var record := buffer[..newline];
      if |record| > max {
        HeadIsLong(buffer, max);
        return records, buffer, true;
      }
      CutFurther(buffer0, records, cut);
      buffer := buffer[newline + 1..];
      records := records + [record];
      cut := cut + newline + 1;
    }
    AllCut(buffer0, records, cut, max);
    long := |buffer| > max;
  }

  /** `records` are the leading segments of `s`, `cut` bytes in all. */
  ghost predicate IsCut(s: Bytes, records: seq<Bytes>, cut: nat)
    requires cut <= |s|
  {
    Segments(s) == records + Segments(s[cut..])
  }

  ghost predicate LongHead(s: Bytes, max: nat) { |Segments(s)[0]| > max }

  lemma NothingCut(s: Bytes)
    ensures s[0..] == s && IsCut(s, [], 0)
  {
    assert s[0..] == s;
  }

  lemma HeadIsLong(s: Bytes, max: nat)
    requires FindNewline(s) > max
    ensures LongHead(s, max)
  {
    FirstSegment(s);
  }

  /** Nothing but the unterminated rest is left. */
  lemma AllCut(s: Bytes, records: seq<Bytes>, cut: nat, max: nat)
    requires cut <= |s| && IsCut(s, records, cut) && FindNewline(s[cut..]) < 0
    ensures Segments(s) == records + [s[cut..]] && NEWLINE !in s[cut..]
    ensures |s[cut..]| > max ==> LongHead(s[cut..], max)
  {
    FirstSegment(s[cut..]);
  }

  lemma CutFurther(s: Bytes, records: seq<Bytes>, cut: nat)
    requires cut <= |s| && IsCut(s, records, cut) && FindNewline(s[cut..]) >= 0
    ensures var n := FindNewline(s[cut..]);
            cut + n + 1 <= |s| && s[cut..][n + 1..] == s[cut + n + 1..] &&
            IsCut(s, records + [s[cut..][..n]], cut + n + 1)
  {
    hide Segments;
    var n := FindNewline(s[cut..]);
    assert s[cut..][n + 1..] == s[cut + n + 1..];
    FirstCut(s[cut..]);
    Reassociate(records, [s[cut..][..n]], Segments(s[cut + n + 1..]));
  }

  /** Reading chunk by chunk hands over exactly the records of the whole stream, up to the first
      segment over the limit, and stops at the chunk that takes it over; `read` chunks are read, the
      buffer stays within the limit plus one chunk, and the tail kept for diagnostics is the end of
      what was read. */
  method StreamRecords(chunks: seq<Bytes>, chunkSize: nat, max: nat, tailSize: nat)
    returns (records: seq<Bytes>, oversized: bool, tail: Bytes, peak: nat, read: nat)
    requires tailSize > 0 && forall c :: c in chunks ==> |c| <= chunkSize
    ensures records == Due(Segments(Stream(chunks)), max)
    ensures oversized <==> SomeTooLong(Segments(Stream(chunks)), max)
    ensures read <= |chunks| && tail == Last(Stream(chunks[..read]), tailSize)
    ensures !oversized ==> Stream(chunks[..read]) == Stream(chunks)
    ensures oversized ==> read > 0 && SomeTooLong(Segments(Stream(chunks[..read])), max)
    ensures oversized ==> !SomeTooLong(Segments(Stream(chunks[..read - 1])), max)
    ensures peak <= max + chunkSize
  {
    hide Segments, Due, SomeTooLong, Last, Stream;
    records, oversized, tail, peak, read := [], false, [], 0, 0;
    var buffer: Bytes := [];
    NothingRead(chunks, max, tailSize);
    while read < |chunks| && chunks[read] != []
      invariant read <= |chunks| && Unended(chunks, read)
      invariant Framed(Stream(chunks[..read]), records, buffer, max)
      invariant tail == Last(Stream(chunks[..read]), tailSize)
      invariant peak <= max + chunkSize
    {
      var chunk := chunks[read];
      assert chunk in chunks;
      ghost var seen, later := Stream(chunks[..read]), Stream(chunks[read + 1..]);
      StreamStep(chunks, read);
      FramedIsShort(seen, records, buffer, max);
      tail := AppendTail(tail, chunk, tailSize, seen);
      peak := if |buffer| + |chunk| > peak then |buffer| + |chunk| else peak;
      read := read + 1;
      records, buffer, oversized := Feed(records, buffer, chunk, max, seen, later);
      if oversized {
        return;
      }
    }
    AllRead(chunks, read);
    FramedIsShort(Stream(chunks), records, buffer, max);
    if buffer != [] {
      records := records + [buffer];
    }
  }

  /** No empty read yet. */
  ghost predicate Unended(chunks: seq<Bytes>, i: nat)
    requires i <= |chunks|
  {
    forall j :: 0 <= j < i ==> chunks[j] != []
  }

  lemma NothingRead(chunks: seq<Bytes>, max: nat, tailSize: nat)
    ensures Framed(Stream(chunks[..0]), [], [], max) && Last(Stream(chunks[..0]), tailSize) == []
  {
  }

  lemma FramedIsShort(seen: Bytes, records: seq<Bytes>, buffer: Bytes, max: nat)
    requires Framed(seen, records, buffer, max)
    ensures Due(Segments(seen), max) == records + (if buffer == [] then [] else [buffer])
    ensures !SomeTooLong(Segments(seen), max)
  {
    DueIsAll(records, buffer, max);
  }

  lemma {:induction false} StreamAppend(a: seq<Bytes>, b: seq<Bytes>)
    requires Unended(a, |a|)
    ensures Stream(a + b) == Stream(a) + Stream(b)
  {
    if a == [] {
      assert a + b == b;
    } else {
      assert (a + b)[1..] == a[1..] + b;
      StreamAppend(a[1..], b);
    }
  }

  lemma StreamStep(chunks: seq<Bytes>, i: nat)
    requires i < |chunks| && chunks[i] != [] && Unended(chunks, i)
    ensures Unended(chunks, i + 1)
    ensures Stream(chunks[..i + 1]) == Stream(chunks[..i]) + chunks[i]
    ensures Stream(chunks) == Stream(chunks[..i]) + chunks[i] + Stream(chunks[i + 1..])
  {
    hide Stream;
    StreamAppend(chunks[..i], [chunks[i]]);
    assert chunks[..i + 1] == chunks[..i] + [chunks[i]];
    StreamOfOne(chunks[i]);
    StreamAppend(chunks[..i + 1], chunks[i + 1..]);
    assert chunks == chunks[..i + 1] + chunks[i + 1..];
  }

  lemma StreamOfOne(chunk: Bytes)
    requires chunk != []
    ensures Stream([chunk]) == chunk
  {
  }

  lemma AllRead(chunks: seq<Bytes>, i: nat)
    requires i <= |chunks| && Unended(chunks, i) && (i < |chunks| ==> chunks[i] == [])
    ensures Stream(chunks[..i]) == Stream(chunks)
  {
    StreamAppend(chunks[..i], chunks[i..]);
    assert chunks == chunks[..i] + chunks[i..];
  }

  /** What has been handed over and what is buffered, of the bytes read so far. */
  ghost predicate Framed(seen: Bytes, records: seq<Bytes>, buffer: Bytes, max: nat) {
    Segments(seen) == records + [buffer] && |buffer| <= max && forall r :: r in records ==> |r| <= max
  }

  /** One chunk: buffered, then drained. */
  method Feed(records0: seq<Bytes>, buffer0: Bytes, chunk: Bytes, max: nat, ghost seen: Bytes, ghost later: Bytes)
    returns (records: seq<Bytes>, buffer: Bytes, long: bool)
    requires Framed(seen, records0, buffer0, max)
    ensures !long ==> Framed(seen + chunk, records, buffer, max)
    ensures long ==> records == Due(Segments(seen + chunk + later), max) &&
                     SomeTooLong(Segments(seen + chunk + later), max)
    ensures long ==> SomeTooLong(Segments(seen + chunk), max)
  {
    SegmentsAppend(seen, chunk, records0, buffer0);
    var more;
    more, buffer, long := Drain(buffer0 + chunk, max);
    records := records0 + more;
    if long {
      LongIsFinal(seen + chunk, later, records0, buffer0 + chunk, more, max);
      LongIsFinal(seen + chunk, [], records0, buffer0 + chunk, more, max);
      assert seen + chunk + [] == seen + chunk;
    }
  }

  /** Once a segment is over the limit, no later byte changes which records are due. */
  lemma LongIsFinal(read: Bytes, later: Bytes, records: seq<Bytes>, buffer: Bytes, more: seq<Bytes>, max: nat)
    requires Segments(read) == records + Segments(buffer)
    requires forall r :: r in records + more ==> |r| <= max
    requires exists cut: nat :: cut <= |buffer| && IsCut(buffer, more, cut) && LongHead(buffer[cut..], max)
    ensures Due(Segments(read + later), max) == records + more
    ensures SomeTooLong(Segments(read + later), max)
  {
    var cut: nat :| cut <= |buffer| && IsCut(buffer, more, cut) && LongHead(buffer[cut..], max);
    var before, tail := records + more, Segments(buffer[cut..]);
    var last, middle := tail[|tail| - 1], tail[..|tail| - 1];
    LastApart(records, more, tail);
    SegmentsAppend(read, later, before + middle, last);
    SegmentsJoin(buffer[cut..]);
    assert last in tail;
    FirstSegmentGrows(last, later);
    var after := middle + Segments(last + later);
    Reassociate(before, middle, Segments(last + later));
    assert |after[0]| > max by {
      if middle != [] { assert after[0] == tail[0]; }
    }
    DueStopsAtFirstLong(before, after, max);
  }

  lemma LastApart<T>(a: seq<T>, b: seq<T>, c: seq<T>)
    requires c != []
    ensures a + (b + c) == (a + b + c[..|c| - 1]) + [c[|c| - 1]]
  {
  }

  lemma Reassociate<T>(a: seq<T>, b: seq<T>, c: seq<T>)
    ensures (a + b) + c == a + (b + c)
  {
  }

  // ---- what is due, and what is kept -------------------------------------------------------

  /** The n first segments are due: none is over the limit, and the next is, or is an empty end, or
      there is none; the last of all is due only with something in it. */
  ghost predicate AreDue(segments: seq<Bytes>, max: nat, n: nat) {
    && n <= |segments| && (forall i :: 0 <= i < n ==> |segments[i]| <= max)
    && (n < |segments| ==> |segments[n]| > max || (n == |segments| - 1 && segments[n] == []))
    && (n == |segments| > 0 ==> segments[n - 1] != [])
  }

  lemma {:induction false} DueIff(segments: seq<Bytes>, max: nat) returns (n: nat)
    ensures AreDue(segments, max, n) && Due(segments, max) == segments[..n]
    ensures forall m :: AreDue(segments, max, m) ==> m == n
  {
    n := 0;
    if segments != [] && |segments[0]| <= max && !(|segments| == 1 && segments[0] == []) {
      var k := DueIff(segments[1..], max);
      n := k + 1;
      assert segments[..n] == [segments[0]] + segments[1..][..k];
      assert forall i :: 0 <= i < k ==> segments[1..][i] == segments[i + 1];
    }
  }

  /** The tail is as much of the end as fits. */
  lemma TailIs(s: Bytes, size: nat)
    ensures |Last(s, size)| <= size && |Last(s, size)| <= |s| && (|Last(s, size)| == size || |Last(s, size)| == |s|)
    ensures Last(s, size) == s[|s| - |Last(s, size)|..]
  {
  }

  /** Reading goes on up to the first empty chunk. */
  lemma StreamIs(chunks: seq<Bytes>, i: nat)
    requires i < |chunks| && forall j :: 0 <= j < i ==> chunks[j] != []
    ensures Stream([]) == []
    ensures chunks[i] != [] ==> Stream(chunks[..i + 1]) == Stream(chunks[..i]) + chunks[i]
    ensures chunks[i] == [] ==> Stream(chunks) == Stream(chunks[..i])
  {
    if chunks[i] == [] { AllRead(chunks, i); } else { StreamStep(chunks, i); }
  }

  /** The constants the backend uses. */
  method StreamCodexRecords(chunks: seq<Bytes>) returns (records: seq<Bytes>, oversized: bool, tail: Bytes, read: nat)
    requires forall c :: c in chunks ==> |c| <= 65_536
    ensures records == Due(Segments(Stream(chunks)), 8_388_608)
    ensures oversized <==> exists seg :: seg in Segments(Stream(chunks)) && |seg| > 8_388_608
    ensures read <= |chunks| && tail == Last(Stream(chunks[..read]), 65_536)
    ensures !oversized ==> Stream(chunks[..read]) == Stream(chunks)
    ensures oversized ==> read > 0 && SomeTooLong(Segments(Stream(chunks[..read])), 8_388_608)
    ensures oversized ==> !SomeTooLong(Segments(Stream(chunks[..read - 1])), 8_388_608)
  {
    var peak;
    records, oversized, tail, peak, read := StreamRecords(chunks, CHUNK_SIZE, MAX_EVENT_SIZE, TAIL_SIZE);
  }
}
