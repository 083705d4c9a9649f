module FilePaging {
  // Paging a file's content under a byte budget (app/main.py): whole lines, at least
  // one per page, and a next line to resume at.

  import opened Wrappers
  import opened JsonText
  import opened Lines

  /** What the lines of a page cost once joined: a newline is two more characters. */
  function LinesCost(lines: seq<string>): nat
    decreases |lines|
  {
    if lines == [] then 0
    else
      var n := |lines| - 1;
      LinesCost(lines[..n]) + TextCost(lines[n]) + if n > 0 then 2 else 0
  }

  /** The per-line costs add up exactly to the cost of the joined text. */
  lemma {:induction false} LinesCostIsExact(lines: seq<string>)
    ensures LinesCost(lines) == TextCost(Join(lines))
    decreases |lines|
  {
    if lines != [] {
      var n := |lines| - 1;
      LinesCostIsExact(lines[..n]);
      if n > 0 {
        JoinConcat(lines[..n], lines[n..]);
        assert lines[..n] + lines[n..] == lines;
        TextCostConcat(Join(lines[..n]), [NEWLINE] + lines[n]);
        assert Join(lines[..n]) + [NEWLINE] + lines[n] == Join(lines[..n]) + ([NEWLINE] + lines[n]);
        assert ([NEWLINE] + lines[n])[1..] == lines[n];
      }
    }
  }

  lemma {:induction false} LinesCostGrows(lines: seq<string>, i: nat, j: nat)
    requires i <= j <= |lines|
    ensures LinesCost(lines[..i]) <= LinesCost(lines[..j])
    decreases j - i
  {
    if i < j {
      LinesCostGrows(lines, i, j - 1);
      assert lines[..j][..j - 1] == lines[..j - 1];
    }
  }

  /** The longest prefix of the lines whose joined text fits. */
  method FitLines(lines: seq<string>, budget: nat) returns (keep: nat)
    ensures keep <= |lines|
    ensures LinesCost(lines[..keep]) <= budget
    ensures forall k | keep < k <= |lines| :: LinesCost(lines[..k]) > budget
  {
    var used := 0;
    for i := 0 to |lines|
      invariant used == LinesCost(lines[..i]) && used <= budget
    {
      assert lines[..i + 1][..i] == lines[..i];
      var cost := TextCost(lines[i]) + if i > 0 then 2 else 0;
      if used + cost > budget {
        forall k | i < k <= |lines|
          ensures LinesCost(lines[..k]) > budget
        {
          LinesCostGrows(lines, i + 1, k);
        }
        return i;
      }
      used := used + cost;
    }
    return |lines|;
  }

  // ------------------------------------------------------------------ one page

  datatype FilePage = FilePage(startLine: nat, content: string, next: Option<nat>, truncated: bool)

  /**
   The length of the wire response: `envelope` covers every field that paging
   does not touch; the flags are written as JSON literals, the reason of a
   truncation as a string of 14 bytes.
   */
  function WireLength(envelope: nat, p: FilePage): nat {
    envelope
    + TextCost(p.content)
    + (match p.next case None => 4 case Some(n) => Digits(n))
    + if p.truncated then 4 + 14 else 5 + 4
  }

  /** The page that shows `count` lines from index `first`. */
  function PageOf(lines: seq<string>, startLine: nat, first: nat, count: nat, truncated: bool): FilePage
    requires first + count <= |lines|
  {
    FilePage(
      startLine,
      Join(lines[first..first + count]),
      if first + count < |lines| then Some(first + count + 1) else None,
      truncated)
  }

  function First(lines: seq<string>, startLine: nat): nat
    requires startLine >= 1
  {
    if startLine - 1 < |lines| then startLine - 1 else |lines|
  }

  /** A truncated page of more than `count` lines does not fit. */
  predicate NoneLonger(lines: seq<string>, startLine: nat, first: nat, count: nat, budget: int, envelope: nat)
    requires first <= |lines|
  {
    forall k | count < k <= |lines| - first :: WireLength(envelope, PageOf(lines, startLine, first, k, true)) > budget
  }

  /** What a page of a found file has to be. */
  predicate IsPage(content: string, startLine: nat, budget: int, envelope: nat, p: FilePage)
    requires startLine >= 1
  {
    var lines := Split(content);
    var first := First(lines, startLine);
    exists count: nat ::
      && first + count <= |lines| && p == PageOf(lines, startLine, first, count, p.truncated)
      && (first < |lines| ==> count >= 1)
      && (count > 1 ==> WireLength(envelope, p) <= budget)
      && (p.truncated <==> WireLength(envelope, PageOf(lines, startLine, first, |lines| - first, false)) > budget)
      && (!p.truncated ==> count == |lines| - first)
      && (p.truncated ==> NoneLonger(lines, startLine, first, count, budget, envelope))
  }

  /** So the page is determined: the whole rest, or the most lines that fit, or one. */
  lemma PageIsUnique(content: string, startLine: nat, budget: int, envelope: nat, p: FilePage, q: FilePage)
    requires startLine >= 1
    requires IsPage(content, startLine, budget, envelope, p) && IsPage(content, startLine, budget, envelope, q)
    ensures p == q
  {
    hide WireLength, Split, Join;
  }

  /** Lines that cost more than the budget leaves beside the envelope make the page too long. */
  lemma DearLinesDoNotFit(lines: seq<string>, startLine: nat, first: nat, k: nat, budget: int, envelope: nat)
    requires first + k <= |lines|
    requires LinesCost(lines[first..][..k]) > budget - (envelope + 4 + 9)
    ensures WireLength(envelope, PageOf(lines, startLine, first, k, true)) > budget
  {
    hide LinesCost, TextCost, Join;
    LinesCostIsExact(lines[first..][..k]);
    assert lines[first..first + k] == lines[first..][..k];
  }

  lemma WholeOverhead(envelope: nat, startLine: nat, text: string)
    ensures WireLength(envelope, FilePage(startLine, text, None, false)) == envelope + TextCost(text) + 4 + 9
  {
  }

  /** A file's page from `startLine`, or the echo of a miss. */
  method ShapeGetFile(content: Option<string>, startLine: int, budget: int, envelope: nat) returns (p: FilePage)
    ensures p.startLine == if startLine < 1 then 1 else startLine
    ensures content.None? ==> p == FilePage(p.startLine, "", None, false)
    ensures content.Some? ==> IsPage(content.value, p.startLine, budget, envelope, p)
  {
    hide TextCost, LinesCost, WireLength, Join, Split;
    var start: nat := if startLine < 1 then 1 else startLine;
    if content.None? {
      return FilePage(start, "", None, false);
    }
    var lines := Split(content.value);
    var first := First(lines, start);
    var pageLines := lines[first..];
    p := FilePage(start, Join(pageLines), None, false);
    var body := WireLength(envelope, p);
    assert lines[first..first + |pageLines|] == pageLines;
    assert p == PageOf(lines, start, first, |lines| - first, false);
    if body <= budget {
      return;
    }
    var overhead := body - TextCost(p.content);
    var keep: nat := FitLines(pageLines, if budget > overhead then budget - overhead else 0);
    if keep == 0 && pageLines != [] {
      keep := 1;
    }
    forall k | keep < k <= |pageLines|
      ensures WireLength(envelope, PageOf(lines, start, first, k, true)) > budget
    {
      assert overhead == envelope + 4 + 9 by {
        WholeOverhead(envelope, start, p.content);
      }
      DearLinesDoNotFit(lines, start, first, k, budget, envelope);
    }
    p := PageOf(lines, start, first, keep, true);
    body := WireLength(envelope, p);
    while keep > 1 && body > budget
      invariant NoneLonger(lines, start, first, keep, budget, envelope)
      invariant keep <= |pageLines| && (pageLines != [] ==> keep >= 1)
      invariant p == PageOf(lines, start, first, keep, true) && body == WireLength(envelope, p)
      decreases keep
    {
      keep := keep - 1;
      p := PageOf(lines, start, first, keep, true);
      body := WireLength(envelope, p);
    }
    assert p == PageOf(lines, start, first, keep, p.truncated);
  }

  // ------------------------------------------------------------------ following next_start_line

  /** Pages fetched one after the other, with any budget and any envelope per call. */
  predicate IsReading(content: string, budgets: seq<(int, nat)>, pages: seq<FilePage>) {
    && |pages| == |budgets| && pages != [] && pages[0].startLine == 1
    && (forall i | 0 <= i < |pages| ::
          pages[i].startLine >= 1 && IsPage(content, pages[i].startLine, budgets[i].0, budgets[i].1, pages[i]))
    && forall i | 0 <= i < |pages| - 1 :: pages[i].next == Some(pages[i + 1].startLine)
  }

  function Contents(pages: seq<FilePage>): seq<string> {
    seq(|pages|, i requires 0 <= i < |pages| => pages[i].content)
  }

  /** Where a page ends, in lines. */
  function EndLine(lines: seq<string>, p: FilePage): int {
    match p.next case Some(n) => n - 1 case None => |lines|
  }

  /** A page that starts inside the file holds the next contiguous run of its lines, at least one. */
  predicate Continues(lines: seq<string>, p: FilePage) {
    && p.startLine >= 1
    && (p.next.Some? ==> 1 <= p.next.value <= |lines|)
    && (p.startLine <= |lines| ==>
          && p.startLine - 1 < EndLine(lines, p) <= |lines|
          && p.content == Join(lines[p.startLine - 1..EndLine(lines, p)]))
  }

  lemma PageContinues(content: string, startLine: nat, budget: int, envelope: nat, p: FilePage)
    requires startLine >= 1 && p.startLine == startLine && IsPage(content, startLine, budget, envelope, p)
    ensures Continues(Split(content), p)
  {
    hide WireLength, NoneLonger, Split, Join;
  }

  /** After each page, the pages so far are the file's first lines, all of them, joined. */
  lemma {:induction false} ReadingIsPrefix(lines: seq<string>, pages: seq<FilePage>, i: nat)
    requires i < |pages| && lines != [] && pages[0].startLine == 1
    requires forall p <- pages :: Continues(lines, p)
    requires forall j | 0 <= j < |pages| - 1 :: pages[j].next == Some(pages[j + 1].startLine)
    ensures i <= pages[i].startLine - 1 < EndLine(lines, pages[i]) <= |lines|
    ensures Join(Contents(pages[..i + 1])) == Join(lines[..EndLine(lines, pages[i])])
  {
    var p := pages[i];
    assert p in pages;
    if i == 0 {
      assert Contents(pages[..1]) == [p.content];
      assert lines[0..EndLine(lines, p)] == lines[..EndLine(lines, p)];
    } else {
      ReadingIsPrefix(lines, pages, i - 1);
      assert pages[i - 1] in pages && pages[i - 1].next == Some(p.startLine);
      assert Contents(pages[..i + 1]) == Contents(pages[..i]) + [p.content];
      JoinTwo(Contents(pages[..i]), p.content, lines, p.startLine - 1, EndLine(lines, p));
    }
  }

  lemma JoinTwo(texts: seq<string>, text: string, lines: seq<string>, from: nat, to: nat)
    requires texts != [] && 0 < from < to <= |lines|
    requires Join(texts) == Join(lines[..from]) && text == Join(lines[from..to])
    ensures Join(texts + [text]) == Join(lines[..to])
  {
    JoinConcat(texts, [text]);
    JoinConcat(lines[..from], lines[from..to]);
    assert lines[..from] + lines[from..to] == lines[..to];
  }

  /**
   Reading from line 1 and following the next line rebuilds the file exactly,
   after at most as many pages as the file has lines.
   */
  lemma ReadingRebuildsFile(content: string, budgets: seq<(int, nat)>, pages: seq<FilePage>)
    requires IsReading(content, budgets, pages)
    ensures |pages| <= |Split(content)|
    ensures pages[|pages| - 1].next == None ==> Join(Contents(pages)) == content
  {
    var n := |pages| - 1;
    forall p | p in pages
      ensures Continues(Split(content), p)
    {
      var i :| 0 <= i < |pages| && pages[i] == p;
      PageContinues(content, p.startLine, budgets[i].0, budgets[i].1, p);
    }
    ReadingIsPrefix(Split(content), pages, n);
    assert pages[..n + 1] == pages;
    if pages[n].next == None {
      assert Split(content)[..|Split(content)|] == Split(content);
      JoinSplit(content);
    }
  }
}
