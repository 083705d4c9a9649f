/** Line-aligned chunks of a file (indexer/parse.py). */
module Chunks {
  import opened Languages

  datatype Chunk = Chunk(index: nat, content: string, startLine: nat, endLine: nat)

  const MAX_CHARS: nat := 2000

  // ------------------------------------------------------------------ splitlines

  /** The characters Python's `str.splitlines` breaks at. */
  predicate IsBreak(c: char) {
    || '\n' <= c <= '\r' || '\U{1c}' <= c <= '\U{1e}' || c == '\U{85}' || c == '\U{2028}' || c == '\U{2029}'
  }

  /** The length of the first line, its break included; a carriage return takes its newline along. */
  function LineLength(text: string): (n: nat)
    requires text != ""
    ensures 0 < n <= |text|
    decreases |text|
  {
    if text[0] == '\r' && |text| > 1 && text[1] == '\n' then 2
    else if IsBreak(text[0]) || |text| == 1 then 1
    else 1 + LineLength(text[1..])
  }

  function SplitLines(text: string): (lines: seq<string>)
    ensures forall line <- lines :: line != ""
    decreases |text|
  {
    if text == "" then [] else [text[..LineLength(text)]] + SplitLines(text[LineLength(text)..])
  }

  function Concat(parts: seq<string>): string
    decreases |parts|
  {
    if parts == [] then "" else Concat(parts[..|parts| - 1]) + parts[|parts| - 1]
  }

  lemma {:induction false} ConcatAppend(a: seq<string>, b: seq<string>)
    ensures Concat(a + b) == Concat(a) + Concat(b)
    decreases |b|
  {
    if b == [] {
      assert a + b == a;
    } else {
      var n := |b| - 1;
      ConcatAppend(a, b[..n]);
      assert (a + b)[..|a| + n] == a + b[..n];
    }
  }

  lemma ConcatOne(s: string)
    ensures Concat([s]) == s
  {
    assert [s][..0] == [] && "" + s == s;
  }

  /** Lines with their breaks rebuild the text. */
  lemma {:induction false} LinesRebuild(text: string)
    ensures Concat(SplitLines(text)) == text
    decreases |text|
  {
    if text != "" {
      var n := LineLength(text);
      LinesRebuild(text[n..]);
      ConcatAppend([text[..n]], SplitLines(text[n..]));
      ConcatOne(text[..n]);
      assert text == text[..n] + text[n..];
    }
  }

  /** Character `i` ends a line: it is a break, and no carriage return whose newline follows. */
  predicate EndsLine(text: string, i: nat)
    requires i < |text|
  {
    text[i] as int in {10, 11, 12, 13, 0x1c, 0x1d, 0x1e, 0x85, 0x2028, 0x2029}
    && !(text[i] == '\r' && i + 1 < |text| && text[i + 1] == '\n')
  }

  /** The first line ends with the first character that ends one, or with the text. */
  lemma {:induction false} LineEnds(text: string)
    requires text != ""
    ensures var n := LineLength(text);
      (n < |text| ==> EndsLine(text, n - 1)) && forall i | 0 <= i < n - 1 :: !EndsLine(text, i)
    decreases |text|
  {
    var n := LineLength(text);
    if !(text[0] == '\r' && |text| > 1 && text[1] == '\n') && !IsBreak(text[0]) && |text| > 1 {
      LineEnds(text[1..]);
      forall i | 0 <= i < n - 1
        ensures !EndsLine(text, i)
      {
        assert i > 0 ==> !EndsLine(text[1..], i - 1);
      }
    }
  }

  /**
   Lines are cut where lines end and nowhere else: within a line only its last
   character may end one, and that of every line but the last does.
   */
  lemma {:induction false} LinesAreCutAtBreaks(text: string, k: nat)
    requires k < |SplitLines(text)|
    ensures var lines := SplitLines(text);
      var line, rest := lines[k], Concat(lines[k + 1..]);
      && line != "" && (forall i | 0 <= i < |line| - 1 :: !EndsLine(line + rest, i))
      && (k < |lines| - 1 ==> EndsLine(line + rest, |line| - 1))
    decreases |text|
  {
    hide EndsLine, LineLength;
    var n := LineLength(text);
    var lines := SplitLines(text);
    LinesRebuild(text[n..]);
    assert lines[1..] == SplitLines(text[n..]);
    if k == 0 {
      LineEnds(text);
      assert lines[0] + Concat(lines[1..]) == text;
      assert |lines| > 1 ==> n < |text|;
    } else {
      LinesAreCutAtBreaks(text[n..], k - 1);
      assert lines[k + 1..] == SplitLines(text[n..])[k..];
    }
  }

  // ------------------------------------------------------------------ the chunks of a file

  predicate Fits(lines: seq<string>, c: Chunk, maxChars: nat) {
    && 1 <= c.startLine <= c.endLine <= |lines|
    && c.content == Concat(lines[c.startLine - 1..c.endLine])
    && (|c.content| <= maxChars || c.startLine == c.endLine)
  }

  /** A chunk stops only where its next line would have overflowed it. */
  predicate Full(lines: seq<string>, c: Chunk, maxChars: nat) {
    c.endLine < |lines| && |c.content| + |lines[c.endLine]| > maxChars
  }

  /** Chunks 0, 1, … cover lines 1 to `upTo` in order, without gap or overlap; each but a last one is full. */
  predicate Covers(lines: seq<string>, chunks: seq<Chunk>, upTo: nat, maxChars: nat)
    decreases |chunks|
  {
    if chunks == [] then upTo == 0
    else
      var n := |chunks| - 1;
      var last := chunks[n];
      && last.index == n && Fits(lines, last, maxChars) && last.endLine == upTo
      && (upTo < |lines| ==> Full(lines, last, maxChars))
      && Covers(lines, chunks[..n], last.startLine - 1, maxChars)
  }

  function Contents(chunks: seq<Chunk>): seq<string> {
    seq(|chunks|, i requires 0 <= i < |chunks| => chunks[i].content)
  }

  /** The contents of the chunks are the covered lines. */
  lemma {:induction false} ContentsAreLines(lines: seq<string>, chunks: seq<Chunk>, upTo: nat, maxChars: nat)
    requires Covers(lines, chunks, upTo, maxChars)
    ensures upTo <= |lines| && Concat(Contents(chunks)) == Concat(lines[..upTo])
    decreases |chunks|
  {
    if chunks != [] {
      var n := |chunks| - 1;
      var last := chunks[n];
      ContentsAreLines(lines, chunks[..n], last.startLine - 1, maxChars);
      assert Contents(chunks)[..n] == Contents(chunks[..n]);
      ConcatAppend(lines[..last.startLine - 1], lines[last.startLine - 1..last.endLine]);
      assert lines[..last.startLine - 1] + lines[last.startLine - 1..last.endLine] == lines[..upTo];
    }
  }

  /** Accumulate lines until the next would overflow; a longer line is a chunk of its own. */
  method IterChunks(pf: ParsedFile, maxChars: nat) returns (chunks: seq<Chunk>)
    ensures var lines := SplitLines(pf.content);
      Covers(lines, chunks, |lines|, maxChars)
  {
    var lines := SplitLines(pf.content);
    chunks := [];
    if lines == [] {
      return;
    }
    var buf: string, startLine: nat := "", 1;
    NothingBuffered(lines, maxChars);
    hide Covers, Full, Concat;
    for lineno := 1 to |lines| + 1
      invariant 1 <= startLine <= lineno && (startLine == lineno <==> buf == "")
      invariant Buffered(lines, chunks, startLine, lineno, buf, maxChars)
    {
      var line := lines[lineno - 1];
      assert line in lines;
      if buf != "" && |buf| + |line| > maxChars {
        Emitted(lines, chunks, startLine, lineno, buf, maxChars);
        chunks := chunks + [Chunk(|chunks|, buf, startLine, lineno - 1)];
        buf, startLine := "", lineno;
      }
      Accepted(lines, chunks, startLine, lineno, buf, maxChars);
      buf := buf + line;
    }
    if buf != "" {
      EmittedLast(lines, chunks, startLine, buf, maxChars);
      chunks := chunks + [Chunk(|chunks|, buf, startLine, |lines|)];
    }
  }

  /** The chunks so far end right before the buffered lines; each of them is full. */
  ghost predicate Buffered(lines: seq<string>, chunks: seq<Chunk>, startLine: nat, lineno: nat, buf: string, maxChars: nat) {
    && 1 <= startLine <= lineno <= |lines| + 1
    && Covers(lines, chunks, startLine - 1, maxChars)
    && buf == Concat(lines[startLine - 1..lineno - 1])
    && (|buf| <= maxChars || startLine + 1 == lineno)
  }

  lemma NothingBuffered(lines: seq<string>, maxChars: nat)
    ensures Buffered(lines, [], 1, 1, "", maxChars)
  {
  }

  lemma Accepted(lines: seq<string>, chunks: seq<Chunk>, startLine: nat, lineno: nat, buf: string, maxChars: nat)
    requires lineno <= |lines| && Buffered(lines, chunks, startLine, lineno, buf, maxChars)
    requires startLine == lineno || |buf| + |lines[lineno - 1]| <= maxChars
    ensures Buffered(lines, chunks, startLine, lineno + 1, buf + lines[lineno - 1], maxChars)
  {
    hide Covers;
    var before := lines[startLine - 1..lineno - 1];
    assert lines[startLine - 1..lineno] == before + [lines[lineno - 1]];
    ConcatAppend(before, [lines[lineno - 1]]);
    ConcatOne(lines[lineno - 1]);
  }

  lemma Emitted(lines: seq<string>, chunks: seq<Chunk>, startLine: nat, lineno: nat, buf: string, maxChars: nat)
    requires startLine < lineno <= |lines| && Buffered(lines, chunks, startLine, lineno, buf, maxChars)
    requires |buf| + |lines[lineno - 1]| > maxChars
    ensures Buffered(lines, chunks + [Chunk(|chunks|, buf, startLine, lineno - 1)], lineno, lineno, "", maxChars)
  {
    var all := chunks + [Chunk(|chunks|, buf, startLine, lineno - 1)];
    assert all[..|chunks|] == chunks;
    assert lines[lineno - 1..lineno - 1] == [];
  }

  lemma EmittedLast(lines: seq<string>, chunks: seq<Chunk>, startLine: nat, buf: string, maxChars: nat)
    requires startLine <= |lines| && Buffered(lines, chunks, startLine, |lines| + 1, buf, maxChars)
    ensures Covers(lines, chunks + [Chunk(|chunks|, buf, startLine, |lines|)], |lines|, maxChars)
  {
    var all := chunks + [Chunk(|chunks|, buf, startLine, |lines|)];
    assert all[..|chunks|] == chunks;
  }

  /**
   The chunks of a file concatenate to its content, cover its lines 1 to n without
   gap or overlap, and each fits the budget unless it is one line.
   */
  lemma ChunksAreTheFile(content: string, chunks: seq<Chunk>, maxChars: nat)
    requires Covers(SplitLines(content), chunks, |SplitLines(content)|, maxChars)
    ensures Concat(Contents(chunks)) == content
    ensures chunks == [] <==> content == ""
  {
    var lines := SplitLines(content);
    ContentsAreLines(lines, chunks, |lines|, maxChars);
    assert lines[..|lines|] == lines;
    LinesRebuild(content);
  }

  lemma {:induction false} ChunkBounds(lines: seq<string>, chunks: seq<Chunk>, upTo: nat, maxChars: nat, i: nat)
    requires Covers(lines, chunks, upTo, maxChars) && i < |chunks|
    ensures chunks[i].index == i && Fits(lines, chunks[i], maxChars)
    ensures chunks[i].startLine == if i == 0 then 1 else chunks[i - 1].endLine + 1
    ensures i == |chunks| - 1 ==> chunks[i].endLine == upTo
    ensures i < |chunks| - 1 ==> Full(lines, chunks[i], maxChars)
    decreases |chunks|
  {
    var n := |chunks| - 1;
    if i < n {
      ChunkBounds(lines, chunks[..n], chunks[n].startLine - 1, maxChars, i);
    }
    if 0 < i == n {
      assert chunks[..n][n - 1].endLine == chunks[n].startLine - 1;
    }
  }

  lemma {:induction false} ConcatGrows(lines: seq<string>, from: nat, a: nat, b: nat)
    requires from <= a <= b <= |lines|
    ensures |Concat(lines[from..a])| <= |Concat(lines[from..b])|
  {
    ConcatAppend(lines[from..a], lines[a..b]);
    assert lines[from..a] + lines[a..b] == lines[from..b];
  }

  /** Two chunks that start alike, each stopping only where it must, end alike. */
  lemma NoLonger(lines: seq<string>, c: Chunk, d: Chunk, maxChars: nat)
    requires Fits(lines, c, maxChars) && Fits(lines, d, maxChars) && c.startLine == d.startLine
    requires c.endLine < |lines| ==> Full(lines, c, maxChars)
    ensures d.endLine <= c.endLine
  {
    if c.endLine < d.endLine {
      var from := c.startLine - 1;
      ConcatGrows(lines, from, c.endLine + 1, d.endLine);
      assert lines[from..c.endLine + 1] == lines[from..c.endLine] + [lines[c.endLine]];
      ConcatAppend(lines[from..c.endLine], [lines[c.endLine]]);
      ConcatOne(lines[c.endLine]);
      assert false;
    }
  }

  lemma SameEnd(lines: seq<string>, c: Chunk, d: Chunk, maxChars: nat)
    requires Fits(lines, c, maxChars) && Fits(lines, d, maxChars) && c.startLine == d.startLine && c.index == d.index
    requires c.endLine < |lines| ==> Full(lines, c, maxChars)
    requires d.endLine < |lines| ==> Full(lines, d, maxChars)
    ensures c == d
  {
    hide Fits, Full;
    NoLonger(lines, c, d, maxChars);
    NoLonger(lines, d, c, maxChars);
    SameContent(lines, c, d, maxChars);
  }

  lemma SameContent(lines: seq<string>, c: Chunk, d: Chunk, maxChars: nat)
    requires Fits(lines, c, maxChars) && Fits(lines, d, maxChars)
    requires c.startLine == d.startLine && c.endLine == d.endLine
    ensures c.content == d.content
  {
  }

  /** What a chunk list says of its i-th chunk: greedy, and last only at the end of the file. */
  lemma ChunkStops(lines: seq<string>, chunks: seq<Chunk>, maxChars: nat, i: nat)
    requires Covers(lines, chunks, |lines|, maxChars) && i < |chunks|
    ensures chunks[i].index == i && Fits(lines, chunks[i], maxChars)
    ensures chunks[i].endLine < |lines| ==> Full(lines, chunks[i], maxChars)
    ensures i == |chunks| - 1 <==> chunks[i].endLine == |lines|
  {
    ChunkBounds(lines, chunks, |lines|, maxChars, i);
  }

  lemma NoChunks(lines: seq<string>, maxChars: nat)
    ensures Covers(lines, [], |lines|, maxChars) <==> lines == []
  {
  }

  /** Greedy chunking has one result: a list that covers the same lines has the same i-th chunk. */
  lemma {:induction false} ChunkingIsUnique(lines: seq<string>, a: seq<Chunk>, b: seq<Chunk>, maxChars: nat, i: nat)
    requires Covers(lines, a, |lines|, maxChars) && Covers(lines, b, |lines|, maxChars) && i < |a|
    ensures i < |b| && a[i] == b[i]
    decreases i
  {
    hide Covers, Full;
    ChunkStops(lines, a, maxChars, i);
    ChunkBounds(lines, a, |lines|, maxChars, i);
    NoChunks(lines, maxChars);
    if i > 0 {
      ChunkingIsUnique(lines, a, b, maxChars, i - 1);
      ChunkStops(lines, a, maxChars, i - 1);
      ChunkStops(lines, b, maxChars, i - 1);
    }
    assert i < |b|;
    ChunkStops(lines, b, maxChars, i);
    ChunkBounds(lines, b, |lines|, maxChars, i);
    SameEnd(lines, a[i], b[i], maxChars);
  }
}
