/** Per-line match extraction: merged spans and their UTF-8 byte ranges (app/search/grep.py). */
module Highlights {
  import opened Lines
  import Utf8

  /** A half-open range of character positions. */
  type Span = (nat, nat)

  /** The matches of one compiled pattern in a line. */
  type Finder = string -> seq<Span>

  ghost predicate FindsWithin(finder: Finder) {
    forall line: string :: forall s <- finder(line) :: s.0 <= s.1 <= |line|
  }

  /** `byteRanges` are UTF-8, line-local and half-open. */
  datatype LineMatch = LineMatch(lineNumber: nat, text: string, byteRanges: seq<Span>)

  // ------------------------------------------------------------------ sorting and merging

  predicate Before(a: Span, b: Span) {
    a.0 < b.0 || (a.0 == b.0 && a.1 <= b.1)
  }

  predicate SortedSpans(spans: seq<Span>)
    decreases |spans|
  {
    |spans| <= 1 || (Before(spans[0], spans[1]) && SortedSpans(spans[1..]))
  }

  function Insert(s: Span, spans: seq<Span>): (r: seq<Span>)
    ensures multiset(r) == multiset(spans) + multiset{s}
    decreases |spans|
  {
    if spans == [] then [s]
    else if Before(s, spans[0]) then
      assert [s] + spans == [s] + spans;
      [s] + spans
    else
      assert spans == [spans[0]] + spans[1..];
      [spans[0]] + Insert(s, spans[1..])
  }

  function Sort(spans: seq<Span>): (r: seq<Span>)
    ensures multiset(r) == multiset(spans)
    ensures |r| == |spans|
    decreases |spans|
  {
    if spans == [] then []
    else
      assert spans == [spans[0]] + spans[1..];
      var r := Insert(spans[0], Sort(spans[1..]));
      assert |multiset(r)| == |r|;
      assert |multiset(spans)| == |spans|;
      r
  }

  lemma {:induction false} InsertSorts(s: Span, spans: seq<Span>)
    requires SortedSpans(spans)
    ensures SortedSpans(Insert(s, spans))
    decreases |spans|
  {
    if spans != [] && !Before(s, spans[0]) {
      InsertSorts(s, spans[1..]);
      assert Insert(s, spans)[1..] == Insert(s, spans[1..]);
    } else if spans != [] {
      assert ([s] + spans)[1..] == spans;
    }
  }

  lemma {:induction false} SortSorts(spans: seq<Span>)
    ensures SortedSpans(Sort(spans))
    decreases |spans|
  {
    if spans != [] {
      SortSorts(spans[1..]);
      InsertSorts(spans[0], Sort(spans[1..]));
    }
  }

  function MergedFrom(current: Span, rest: seq<Span>): (r: seq<Span>)
    ensures r != []
    decreases |rest|
  {
    if rest == [] then [current]
    else if rest[0].0 <= current.1 then
      MergedFrom((current.0, if rest[0].1 > current.1 then rest[0].1 else current.1), rest[1..])
    else [current] + MergedFrom(rest[0], rest[1..])
  }

  function Merged(spans: seq<Span>): seq<Span>
    requires spans != []
  {
    MergedFrom(Sort(spans)[0], Sort(spans)[1..])
  }

  predicate Covers(spans: seq<Span>, x: nat) {
    exists s <- spans :: s.0 <= x < s.1
  }

  predicate NonEmpty(spans: seq<Span>) {
    forall s <- spans :: s.0 < s.1
  }

  /** A gap of at least one character lies between one span and the next. */
  predicate Separated(spans: seq<Span>) {
    forall i | 0 <= i < |spans| - 1 :: spans[i].1 < spans[i + 1].0
  }

  lemma CoversCons(s: Span, spans: seq<Span>, x: nat)
    ensures Covers([s] + spans, x) <==> s.0 <= x < s.1 || Covers(spans, x)
  {
    assert s in [s] + spans;
    assert forall t <- spans :: t in [s] + spans;
  }

  predicate StartsBefore(current: Span, rest: seq<Span>) {
    SortedSpans(rest) && (rest != [] ==> current.0 <= rest[0].0)
  }

  lemma {:induction false} MergedFromCovers(current: Span, rest: seq<Span>, x: nat)
    requires StartsBefore(current, rest)
    ensures Covers(MergedFrom(current, rest), x) <==> current.0 <= x < current.1 || Covers(rest, x)
    decreases |rest|
  {
    if rest == [] {
      CoversCons(current, [], x);
    } else {
      assert rest == [rest[0]] + rest[1..];
      CoversCons(rest[0], rest[1..], x);
      if rest[0].0 <= current.1 {
        MergedFromCovers((current.0, if rest[0].1 > current.1 then rest[0].1 else current.1), rest[1..], x);
      } else {
        MergedFromCovers(rest[0], rest[1..], x);
        CoversCons(current, MergedFrom(rest[0], rest[1..]), x);
      }
    }
  }

  lemma {:induction false} MergedFromIsSeparated(current: Span, rest: seq<Span>)
    requires StartsBefore(current, rest) && current.0 < current.1 && NonEmpty(rest)
    ensures MergedFrom(current, rest)[0].0 == current.0
    ensures NonEmpty(MergedFrom(current, rest)) && Separated(MergedFrom(current, rest))
    decreases |rest|
  {
    if rest != [] {
      assert rest[0] in rest;
      if rest[0].0 <= current.1 {
        MergedFromIsSeparated((current.0, if rest[0].1 > current.1 then rest[0].1 else current.1), rest[1..]);
      } else {
        MergedFromIsSeparated(rest[0], rest[1..]);
      }
    }
  }

  /**
   The merged spans are in order with a gap between any two, and cover exactly
   the characters the given spans cover.
   */
  lemma MergedIsMinimalCover(spans: seq<Span>)
    requires spans != [] && NonEmpty(spans)
    ensures Separated(Merged(spans)) && NonEmpty(Merged(spans))
    ensures forall x: nat :: Covers(Merged(spans), x) <==> Covers(spans, x)
  {
    var sorted := Sort(spans);
    SortSorts(spans);
    assert [sorted[0]] + sorted[1..] == sorted;
    assert forall s :: s in sorted <==> s in multiset(sorted);
    assert forall s :: s in spans <==> s in multiset(spans);
    assert sorted[0] in sorted;
    MergedFromIsSeparated(sorted[0], sorted[1..]);
    forall x: nat
      ensures Covers(Merged(spans), x) <==> Covers(spans, x)
    {
      MergedFromCovers(sorted[0], sorted[1..], x);
      CoversCons(sorted[0], sorted[1..], x);
    }
  }

  /** The merged list so far, its last span still open to the sorted spans from `i` on. */
  ghost function Pending(merged: seq<Span>, sorted: seq<Span>, i: nat): seq<Span>
    requires merged != [] && i <= |sorted|
  {
    merged[..|merged| - 1] + MergedFrom(merged[|merged| - 1], sorted[i..])
  }

  lemma PendingStep(merged: seq<Span>, sorted: seq<Span>, i: nat)
    requires merged != [] && i < |sorted|
    ensures var last := merged[|merged| - 1];
      Pending(merged, sorted, i) == Pending(
        if sorted[i].0 <= last.1 then merged[|merged| - 1 := (last.0, if sorted[i].1 > last.1 then sorted[i].1 else last.1)]
        else merged + [sorted[i]],
        sorted, i + 1)
  {
    var last, before := merged[|merged| - 1], merged[..|merged| - 1];
    assert sorted[i..][0] == sorted[i] && sorted[i..][1..] == sorted[i + 1..];
    if sorted[i].0 <= last.1 {
      assert merged[|merged| - 1 := (last.0, if sorted[i].1 > last.1 then sorted[i].1 else last.1)][..|merged| - 1] == before;
    } else {
      var rest := MergedFrom(sorted[i], sorted[i + 1..]);
      assert (merged + [sorted[i]])[..|merged|] == merged == before + [last];
      assert before + ([last] + rest) == (before + [last]) + rest;
    }
  }

  lemma PendingDone(merged: seq<Span>, sorted: seq<Span>)
    requires merged != []
    ensures Pending(merged, sorted, |sorted|) == merged
  {
  }

  /** Sorting, then one pass that widens the last merged span or starts a new one. */
  method MergeSpans(spans: seq<Span>) returns (merged: seq<Span>)
    requires spans != []
    ensures merged == Merged(spans)
  {
    var sorted := Sort(spans);
    merged := [sorted[0]];
    assert Pending(merged, sorted, 1) == Merged(spans);
    hide Pending, Merged, MergedFrom, Sort;
    for i := 1 to |sorted|
      invariant merged != [] && Pending(merged, sorted, i) == Merged(spans)
    {
      PendingStep(merged, sorted, i);
      var last := merged[|merged| - 1];
      if sorted[i].0 <= last.1 {
        merged := merged[|merged| - 1 := (last.0, if sorted[i].1 > last.1 then sorted[i].1 else last.1)];
      } else {
        merged := merged + [sorted[i]];
      }
    }
    PendingDone(merged, sorted);
  }

  // ------------------------------------------------------------------ byte ranges

  predicate SpansWithin(spans: seq<Span>, line: string) {
    forall s <- spans :: s.0 <= s.1 <= |line|
  }

  /** The UTF-8 offset of a character offset. */
  function ByteOffset(line: string, chars: nat): nat
    requires chars <= |line|
  {
    |Utf8.Encode(line[..chars])|
  }

  /** Where a span starts and ends in the UTF-8 encoding of the line. */
  function ByteRange(line: string, s: Span): Span
    requires s.0 <= s.1 <= |line|
  {
    (ByteOffset(line, s.0), ByteOffset(line, s.1))
  }

  function ByteRanges(line: string, spans: seq<Span>): (ranges: seq<Span>)
    requires SpansWithin(spans, line)
    ensures |ranges| == |spans|
    decreases |spans|
  {
    if spans == [] then []
    else
      var n := |spans| - 1;
      assert spans[n] in spans;
      ByteRanges(line, spans[..n]) + [ByteRange(line, spans[n])]
  }

  lemma {:induction false} ByteRangesAt(line: string, spans: seq<Span>, i: nat)
    requires SpansWithin(spans, line) && i < |spans|
    ensures spans[i] in spans && ByteRanges(line, spans)[i] == ByteRange(line, spans[i])
    decreases |spans|
  {
    var n := |spans| - 1;
    if i < n {
      ByteRangesAt(line, spans[..n], i);
    }
  }

  /** Each byte range cuts out of the encoded line exactly the encoding of its span. */
  lemma RangeSlicesSpan(line: string, spans: seq<Span>, i: nat)
    requires SpansWithin(spans, line) && i < |spans|
    ensures var (a, b) := ByteRanges(line, spans)[i];
      var bytes := Utf8.Encode(line);
      spans[i] in spans && a <= b <= |bytes| && bytes[a..b] == Utf8.Encode(line[spans[i].0..spans[i].1])
  {
    ByteRangesAt(line, spans, i);
    Utf8.EncodeSlice(line, spans[i].0, spans[i].1);
  }

  lemma CursorStep(line: string, from: nat, to: nat)
    requires from <= to <= |line|
    ensures ByteOffset(line, to) == ByteOffset(line, from) + |Utf8.Encode(line[from..to])|
  {
    Utf8.EncodeConcat(line[..from], line[from..to]);
    assert line[..from] + line[from..to] == line[..to];
  }

  /** The first `i` spans are converted, and the byte cursor stands where the last of them ends. */
  ghost predicate Converted(
    line: string, spans: seq<Span>, i: nat, ranges: seq<Span>, charCursor: nat, byteCursor: nat)
  {
    && i <= |spans| && SpansWithin(spans[..i], line) && ranges == ByteRanges(line, spans[..i])
    && charCursor == (if i == 0 then 0 else spans[i - 1].1) && charCursor <= |line|
    && byteCursor == ByteOffset(line, charCursor)
  }

  lemma ConvertedStep(line: string, spans: seq<Span>, i: nat, ranges: seq<Span>, charCursor: nat, byteCursor: nat)
    requires SpansWithin(spans, line) && Separated(spans) && i < |spans|
    requires Converted(line, spans, i, ranges, charCursor, byteCursor)
    ensures charCursor <= spans[i].0 <= spans[i].1 <= |line|
    ensures var startByte := byteCursor + |Utf8.Encode(line[charCursor..spans[i].0])|;
      var endByte := startByte + |Utf8.Encode(line[spans[i].0..spans[i].1])|;
      Converted(line, spans, i + 1, ranges + [(startByte, endByte)], spans[i].1, endByte)
  {
    hide Utf8.Encode;
    assert spans[i] in spans && (i > 0 ==> spans[i - 1].1 < spans[i].0);
    assert spans[..i + 1][..i] == spans[..i];
    CursorStep(line, charCursor, spans[i].0);
    CursorStep(line, spans[i].0, spans[i].1);
  }

  lemma ConvertedEnds(line: string, spans: seq<Span>)
    requires SpansWithin(spans, line)
    ensures Converted(line, spans, 0, [], 0, 0)
    ensures forall ranges, charCursor, byteCursor ::
      Converted(line, spans, |spans|, ranges, charCursor, byteCursor) ==> ranges == ByteRanges(line, spans)
  {
    assert spans[..|spans|] == spans;
  }

  /** One pass over the spans that encodes only the gaps and the spans themselves. */
  method CharToByteRanges(line: string, spans: seq<Span>) returns (ranges: seq<Span>)
    requires SpansWithin(spans, line) && Separated(spans)
    ensures ranges == ByteRanges(line, spans)
  {
    hide Converted, ByteRanges, Utf8.Encode, Separated, SpansWithin;
    ranges := [];
    var charCursor: nat, byteCursor: nat := 0, 0;
    ConvertedEnds(line, spans);
    for i := 0 to |spans|
      invariant Converted(line, spans, i, ranges, charCursor, byteCursor)
    {
      ConvertedStep(line, spans, i, ranges, charCursor, byteCursor);
      var (start, end) := spans[i];
      byteCursor := byteCursor + |Utf8.Encode(line[charCursor..start])|;
      var startByte := byteCursor;
      byteCursor := byteCursor + |Utf8.Encode(line[start..end])|;
      charCursor := end;
      ranges := ranges + [(startByte, byteCursor)];
    }
  }

  // ------------------------------------------------------------------ lines

  /** One trailing carriage return is not part of a line. */
  function Stripped(raw: string): string {
    if raw != "" && raw[|raw| - 1] == '\r' then raw[..|raw| - 1] else raw
  }

  function DropEmpty(spans: seq<Span>): seq<Span>
    decreases |spans|
  {
    if spans == [] then []
    else
      var n := |spans| - 1;
      DropEmpty(spans[..n]) + if spans[n].1 > spans[n].0 then [spans[n]] else []
  }

  lemma {:induction false} DropEmptyKeeps(spans: seq<Span>)
    ensures forall s :: s in DropEmpty(spans) <==> s in spans && s.0 < s.1
    decreases |spans|
  {
    if spans != [] {
      var n := |spans| - 1;
      DropEmptyKeeps(spans[..n]);
      assert spans == spans[..n] + [spans[n]];
    }
  }

  /** All non-empty matches of all patterns in a line. */
  function Hits(finders: seq<Finder>, line: string): seq<Span>
    decreases |finders|
  {
    if finders == [] then []
    else
      var n := |finders| - 1;
      Hits(finders[..n], line) + DropEmpty(finders[n](line))
  }

  /** Some pattern matches character `x` of the line. */
  ghost predicate Marked(finders: seq<Finder>, line: string, x: nat) {
    exists f <- finders :: Covers(f(line), x)
  }

  /** The hits cover exactly the characters that some pattern matches. */
  lemma {:induction false} HitsCoverTheMarked(finders: seq<Finder>, line: string, x: nat)
    ensures Covers(Hits(finders, line), x) <==> Marked(finders, line, x)
    decreases |finders|
  {
    if finders != [] {
      var n := |finders| - 1;
      HitsCoverTheMarked(finders[..n], line, x);
      DropEmptyKeeps(finders[n](line));
      var front, last := Hits(finders[..n], line), DropEmpty(finders[n](line));
      assert Covers(front + last, x) <==> Covers(front, x) || Covers(last, x) by {
        assert forall s :: s in front + last <==> s in front || s in last;
      }
      assert Covers(last, x) <==> Covers(finders[n](line), x);
      assert finders == finders[..n] + [finders[n]];
    }
  }

  lemma HitsMarkSomething(finders: seq<Finder>, line: string)
    requires forall f <- finders :: FindsWithin(f)
    ensures Hits(finders, line) != [] <==> exists x: nat :: Marked(finders, line, x)
  {
    HitsWithin(finders, line);
    var hits := Hits(finders, line);
    hide Hits, Marked;
    if hits != [] {
      assert hits[0] in hits && Covers(hits, hits[0].0);
      HitsCoverTheMarked(finders, line, hits[0].0);
    }
    if x: nat :| Marked(finders, line, x) {
      HitsCoverTheMarked(finders, line, x);
    }
  }

  lemma {:induction false} HitsWithin(finders: seq<Finder>, line: string)
    requires forall f <- finders :: FindsWithin(f)
    ensures SpansWithin(Hits(finders, line), line) && NonEmpty(Hits(finders, line))
    decreases |finders|
  {
    if finders != [] {
      var n := |finders| - 1;
      HitsWithin(finders[..n], line);
      DropEmptyKeeps(finders[n](line));
      assert finders[n] in finders;
    }
  }

  lemma MergedWithin(spans: seq<Span>, line: string)
    requires spans != [] && NonEmpty(spans) && SpansWithin(spans, line)
    ensures SpansWithin(Merged(spans), line)
  {
    MergedIsMinimalCover(spans);
    forall s | s in Merged(spans)
      ensures s.0 <= s.1 <= |line|
    {
      assert Covers(Merged(spans), s.1 - 1);
    }
  }

  /** The match of one line, if any pattern highlights something in it. */
  function MatchesOfLine(finders: seq<Finder>, lineNumber: nat, raw: string): seq<LineMatch>
    requires forall f <- finders :: FindsWithin(f)
  {
    var line := Stripped(raw);
    var hits := Hits(finders, line);
    if hits == [] then []
    else
      HitsWithin(finders, line);
      MergedWithin(hits, line);
      [LineMatch(lineNumber, line, ByteRanges(line, Merged(hits)))]
  }

  function MatchesOfLines(finders: seq<Finder>, lines: seq<string>): seq<LineMatch>
    requires forall f <- finders :: FindsWithin(f)
    decreases |lines|
  {
    if lines == [] then []
    else
      var n := |lines| - 1;
      MatchesOfLines(finders, lines[..n]) + MatchesOfLine(finders, n + 1, lines[n])
  }

  function MatchesOf(finders: seq<Finder>, content: string): seq<LineMatch>
    requires forall f <- finders :: FindsWithin(f)
  {
    MatchesOfLines(finders, Split(content))
  }

  /** All non-empty matches in one line, pattern by pattern. */
  method CollectSpans(finders: seq<Finder>, line: string) returns (spans: seq<Span>)
    ensures spans == Hits(finders, line)
  {
    spans := [];
    for j := 0 to |finders|
      invariant spans == Hits(finders[..j], line)
    {
      assert finders[..j + 1][..j] == finders[..j];
      var found := finders[j](line);
      var kept := [];
      for m := 0 to |found|
        invariant kept == DropEmpty(found[..m])
      {
        assert found[..m + 1][..m] == found[..m];
        if found[m].1 > found[m].0 {
          kept := kept + [found[m]];
        }
      }
      assert found[..|found|] == found;
      spans := spans + kept;
    }
    assert finders[..|finders|] == finders;
  }

  /** The scan of a file: one entry per line that some pattern highlights. */
  method ExtractLineMatches(content: string, finders: seq<Finder>) returns (matches: seq<LineMatch>)
    requires forall f <- finders :: FindsWithin(f)
    ensures matches == MatchesOf(finders, content)
  {
    hide Hits, Merged, ByteRanges, Split, Stripped;
    var lines := Split(content);
    if finders == [] {
      NoFindersNoMatches(lines);
      return [];
    }
    matches := [];
    for i := 0 to |lines|
      invariant matches == MatchesOfLines(finders, lines[..i])
    {
      assert lines[..i + 1][..i] == lines[..i];
      var line := Stripped(lines[i]);
      var spans := CollectSpans(finders, line);
      if spans == [] {
        continue;
      }
      assert SpansWithin(Merged(spans), line) && Separated(Merged(spans)) by {
        HitsWithin(finders, line);
        MergedWithin(spans, line);
        MergedIsMinimalCover(spans);
      }
      var merged := MergeSpans(spans);
      var ranges := CharToByteRanges(line, merged);
      matches := matches + [LineMatch(i + 1, line, ranges)];
    }
    assert lines[..|lines|] == lines;
  }

  lemma {:induction false} NoFindersNoMatches(lines: seq<string>)
    ensures MatchesOfLines([], lines) == []
    decreases |lines|
  {
    if lines != [] {
      NoFindersNoMatches(lines[..|lines| - 1]);
    }
  }

  /** The spans cover exactly the characters some pattern matches, and the byte ranges are theirs. */
  ghost predicate Highlights(finders: seq<Finder>, m: LineMatch, spans: seq<Span>) {
    && spans != [] && SpansWithin(spans, m.text) && Separated(spans)
    && m.byteRanges == ByteRanges(m.text, spans)
    && forall x: nat :: Covers(spans, x) <==> Marked(finders, m.text, x)
  }

  /** The text is the line, without the carriage return it may end in. */
  predicate IsTextOf(text: string, raw: string) {
    if raw != "" && raw[|raw| - 1] == '\r' then text + "\r" == raw else text == raw
  }

  /**
   What a reported line promises: it is the numbered line of the file, and its
   byte ranges cut exactly the characters that some pattern matched there.
   */
  ghost predicate Promised(finders: seq<Finder>, lines: seq<string>, m: LineMatch) {
    && 1 <= m.lineNumber <= |lines| && IsTextOf(m.text, lines[m.lineNumber - 1])
    && Faithful(finders, m)
  }

  ghost predicate Faithful(finders: seq<Finder>, m: LineMatch) {
    exists spans: seq<Span> :: Highlights(finders, m, spans)
  }

  /** Some pattern matches some character of the line's text. */
  ghost predicate Highlighted(finders: seq<Finder>, raw: string) {
    exists text: string, x: nat :: IsTextOf(text, raw) && Marked(finders, text, x)
  }

  predicate Reported(matches: seq<LineMatch>, lineNumber: nat) {
    exists m <- matches :: m.lineNumber == lineNumber
  }

  lemma StrippedIsText(raw: string, text: string)
    ensures IsTextOf(text, raw) <==> text == Stripped(raw)
  {
  }

  lemma LineIsFaithful(finders: seq<Finder>, lineNumber: nat, raw: string)
    requires forall f <- finders :: FindsWithin(f)
    ensures forall m <- MatchesOfLine(finders, lineNumber, raw) ::
      m.lineNumber == lineNumber && IsTextOf(m.text, raw) && Faithful(finders, m)
  {
    var line := Stripped(raw);
    var hits := Hits(finders, line);
    StrippedIsText(raw, line);
    if hits != [] {
      HitsWithin(finders, line);
      MergedWithin(hits, line);
      MergedIsMinimalCover(hits);
      var m := LineMatch(lineNumber, line, ByteRanges(line, Merged(hits)));
      hide Stripped, Hits, Marked, Merged, IsTextOf;
      forall x: nat
        ensures Covers(Merged(hits), x) <==> Marked(finders, line, x)
      {
        HitsCoverTheMarked(finders, line, x);
      }
      assert Highlights(finders, m, Merged(hits));
    }
  }

  lemma LineIsReportedExactlyWhen(finders: seq<Finder>, lineNumber: nat, raw: string)
    requires forall f <- finders :: FindsWithin(f)
    ensures MatchesOfLine(finders, lineNumber, raw) != [] <==> Highlighted(finders, raw)
    ensures |MatchesOfLine(finders, lineNumber, raw)| <= 1
  {
    var line := Stripped(raw);
    HitsMarkSomething(finders, line);
    hide Hits, Marked, Stripped, IsTextOf, Merged, ByteRanges;
    forall text: string
      ensures IsTextOf(text, raw) <==> text == line
    {
      StrippedIsText(raw, text);
    }
  }

  predicate Increasing(matches: seq<LineMatch>) {
    forall i, j | 0 <= i < j < |matches| :: matches[i].lineNumber < matches[j].lineNumber
  }

  lemma IncreasingSnoc(matches: seq<LineMatch>, m: LineMatch)
    requires Increasing(matches) && forall l <- matches :: l.lineNumber < m.lineNumber
    ensures Increasing(matches + [m])
  {
    assert forall i | 0 <= i < |matches| :: matches[i] in matches;
  }

  /** Every reported line keeps its promise and the line numbers increase. */
  lemma {:induction false} MatchesArePromised(finders: seq<Finder>, lines: seq<string>)
    requires forall f <- finders :: FindsWithin(f)
    ensures var matches := MatchesOfLines(finders, lines);
      && (forall m <- matches :: Promised(finders, lines, m))
      && Increasing(matches)
    decreases |lines|
  {
    if lines != [] {
      var n := |lines| - 1;
      MatchesArePromised(finders, lines[..n]);
      LineIsFaithful(finders, n + 1, lines[n]);
      var front, last := MatchesOfLines(finders, lines[..n]), MatchesOfLine(finders, n + 1, lines[n]);
      var matches := front + last;
      assert |last| <= 1 && forall m <- last :: Promised(finders, lines, m);
      forall m | m in front
        ensures Promised(finders, lines, m) && m.lineNumber <= n
      {
        assert Promised(finders, lines[..n], m);
      }
      if last != [] {
        assert matches == front + [last[0]];
        IncreasingSnoc(front, last[0]);
      }
    }
  }

  /** A line is reported exactly when some pattern matches something in it. */
  lemma {:induction false} EveryHighlightedLineIsReported(finders: seq<Finder>, lines: seq<string>, i: nat)
    requires forall f <- finders :: FindsWithin(f)
    requires i < |lines|
    ensures Reported(MatchesOfLines(finders, lines), i + 1) <==> Highlighted(finders, lines[i])
    decreases |lines|
  {
    hide Highlighted, Promised, MatchesOfLine;
    var n := |lines| - 1;
    var front, last := MatchesOfLines(finders, lines[..n]), MatchesOfLine(finders, n + 1, lines[n]);
    LineIsFaithful(finders, n + 1, lines[n]);
    LineIsReportedExactlyWhen(finders, n + 1, lines[n]);
    ReportedBehind(front, last, i + 1);
    if i < n {
      EveryHighlightedLineIsReported(finders, lines[..n], i);
    } else {
      NumbersInRange(finders, lines[..n]);
      if last != [] {
        assert last[0] in last;
      }
    }
  }

  lemma ReportedBehind(a: seq<LineMatch>, b: seq<LineMatch>, lineNumber: nat)
    ensures Reported(a + b, lineNumber) <==> Reported(a, lineNumber) || Reported(b, lineNumber)
  {
    assert forall m :: m in a + b <==> m in a || m in b;
  }

  lemma NumbersInRange(finders: seq<Finder>, lines: seq<string>)
    requires forall f <- finders :: FindsWithin(f)
    ensures forall m <- MatchesOfLines(finders, lines) :: m.lineNumber <= |lines|
  {
    MatchesArePromised(finders, lines);
    hide Faithful, MatchesOfLines, IsTextOf;
    forall m | m in MatchesOfLines(finders, lines)
      ensures m.lineNumber <= |lines|
    {
      assert Promised(finders, lines, m);
    }
  }

  /**
   The scan of a file, from its text: the lines are the text cut at its newlines;
   exactly those are reported, in order and under their numbers, in which some pattern
   matches a character, each without its carriage return and with the byte ranges of
   the characters matched.
   */
  lemma ScanReportsTheMatches(finders: seq<Finder>, content: string)
    requires forall f <- finders :: FindsWithin(f)
    ensures var lines, matches := Split(content), MatchesOf(finders, content);
      && Join(lines) == content && (forall line <- lines :: NEWLINE !in line)
      && Increasing(matches) && (forall m <- matches :: Promised(finders, lines, m))
      && forall i | 0 <= i < |lines| :: Reported(matches, i + 1) <==> Highlighted(finders, lines[i])
  {
    hide Promised, Highlighted, MatchesOfLines, Split, Join, Reported;
    var lines := Split(content);
    JoinSplit(content);
    SegmentsHoldNoNewline(content);
    MatchesArePromised(finders, lines);
    forall i | 0 <= i < |lines|
      ensures Reported(MatchesOfLines(finders, lines), i + 1) <==> Highlighted(finders, lines[i])
    {
      EveryHighlightedLineIsReported(finders, lines, i);
    }
  }
}
