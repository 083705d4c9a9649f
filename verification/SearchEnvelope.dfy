module SearchEnvelope {
  // The search envelope (app/service.py, app/main.py): content and symbol matches
  // merged into one file list, and what a reader sees who follows the cursors of
  // pages that the byte budget has trimmed.

  import opened Wrappers
  import opened Cursors
  import opened Highlights
  import opened Pagination
  import ResponseTrim

  datatype SymbolHit = SymbolHit(name: string, kind: Option<string>, line: Option<nat>)

  datatype Match = Line(line: LineMatch) | Definition(hit: SymbolHit)

  /** One file of the envelope. */
  datatype Entry = Entry(key: FileCursor, matches: seq<Match>)

  predicate OrderedEntries(entries: seq<Entry>) {
    forall i, j | 0 <= i < j < |entries| :: Less(entries[i].key, entries[j].key)
  }

  // ------------------------------------------------------------------ the matches of one file

  function LinesIn(matches: seq<Match>): seq<LineMatch>
    decreases |matches|
  {
    if matches == [] then []
    else
      var n := |matches| - 1;
      LinesIn(matches[..n]) + if matches[n].Line? then [matches[n].line] else []
  }

  lemma LinesSnoc(matches: seq<Match>, m: Match)
    ensures LinesIn(matches + [m]) == LinesIn(matches) + if m.Line? then [m.line] else []
  {
    assert (matches + [m])[..|matches|] == matches;
  }

  function AsLines(lines: seq<LineMatch>): (matches: seq<Match>)
    ensures |matches| == |lines| && forall m <- matches :: m.Line?
  {
    seq(|lines|, i requires 0 <= i < |lines| => Line(lines[i]))
  }

  lemma {:induction false} AsLinesKeeps(lines: seq<LineMatch>)
    ensures LinesIn(AsLines(lines)) == lines
    decreases |lines|
  {
    if lines != [] {
      var n := |lines| - 1;
      AsLinesKeeps(lines[..n]);
      assert AsLines(lines)[..n] == AsLines(lines[..n]);
      assert lines == lines[..n] + [lines[n]];
    }
  }

  function LineOf(m: Match): Option<nat> {
    match m case Line(l) => Some(l.lineNumber) case Definition(hit) => hit.line
  }

  /** By line; a symbol without a line comes last. */
  predicate NotAfter(a: Match, b: Match) {
    LineOf(b).None? || (LineOf(a).Some? && LineOf(a).value <= LineOf(b).value)
  }

  predicate SortedByLine(matches: seq<Match>) {
    forall i, j | 0 <= i < j < |matches| :: NotAfter(matches[i], matches[j])
  }

  function Inserted(matches: seq<Match>, m: Match): (r: seq<Match>)
    ensures forall x :: x in r <==> x in matches || x == m
    decreases |matches|
  {
    if matches == [] then [m]
    else
      var n := |matches| - 1;
      assert matches == matches[..n] + [matches[n]];
      if NotAfter(matches[n], m) then matches + [m] else Inserted(matches[..n], m) + [matches[n]]
  }

  /** The stable sort of a file's matches by line. */
  function ByLine(matches: seq<Match>): (r: seq<Match>)
    ensures forall x :: x in r <==> x in matches
    decreases |matches|
  {
    if matches == [] then []
    else
      var n := |matches| - 1;
      assert matches == matches[..n] + [matches[n]];
      Inserted(ByLine(matches[..n]), matches[n])
  }

  function AtLine(matches: seq<Match>, line: Option<nat>): seq<Match>
    decreases |matches|
  {
    if matches == [] then []
    else
      var n := |matches| - 1;
      AtLine(matches[..n], line) + if LineOf(matches[n]) == line then [matches[n]] else []
  }

  lemma AtLineSnoc(matches: seq<Match>, m: Match, line: Option<nat>)
    ensures AtLine(matches + [m], line) == AtLine(matches, line) + if LineOf(m) == line then [m] else []
  {
    assert (matches + [m])[..|matches|] == matches;
  }

  lemma {:induction false} InsertedIsSorted(matches: seq<Match>, m: Match)
    requires SortedByLine(matches)
    ensures SortedByLine(Inserted(matches, m))
    decreases |matches|
  {
    if matches != [] {
      var n := |matches| - 1;
      var last := matches[n];
      if NotAfter(last, m) {
        assert forall i | 0 <= i < n :: NotAfter(matches[i], last);
      } else {
        InsertedIsSorted(matches[..n], m);
        var front := Inserted(matches[..n], m);
        forall i | 0 <= i < |front|
          ensures NotAfter(front[i], last)
        {
          assert front[i] in front;
        }
      }
    }
  }

  lemma {:induction false} InsertedIsStable(matches: seq<Match>, m: Match, line: Option<nat>)
    requires SortedByLine(matches)
    ensures AtLine(Inserted(matches, m), line) == AtLine(matches + [m], line)
    decreases |matches|
  {
    AtLineSnoc(matches, m, line);
    if matches != [] && !NotAfter(matches[|matches| - 1], m) {
      var n := |matches| - 1;
      var last := matches[n];
      InsertedIsStable(matches[..n], m, line);
      AtLineSnoc(matches[..n], m, line);
      AtLineSnoc(Inserted(matches[..n], m), last, line);
      assert LineOf(last) != LineOf(m);
      hide LineOf, NotAfter, Inserted;
      assert matches == matches[..n] + [last];
    }
  }

  /** Lines stand in the order of their numbers, a definition at its own line, and one without a line behind all that have one. */
  predicate InLineOrder(a: Match, b: Match) {
    match (a, b)
    case (Line(l), Line(m)) => l.lineNumber <= m.lineNumber
    case (Line(l), Definition(h)) => h.line.Some? ==> l.lineNumber <= h.line.value
    case (Definition(h), Line(l)) => h.line.Some? && h.line.value <= l.lineNumber
    case (Definition(h), Definition(i)) => i.line.Some? ==> h.line.Some? && h.line.value <= i.line.value
  }

  lemma NotAfterIsLineOrder(a: Match, b: Match)
    ensures NotAfter(a, b) <==> InLineOrder(a, b)
  {
  }

  /** The matches of a file end up by line, and among those of one line none changes its place. */
  lemma {:induction false} ByLineIsStable(matches: seq<Match>, line: Option<nat>)
    ensures SortedByLine(ByLine(matches)) && AtLine(ByLine(matches), line) == AtLine(matches, line)
    ensures forall i, j | 0 <= i < j < |ByLine(matches)| :: InLineOrder(ByLine(matches)[i], ByLine(matches)[j])
    decreases |matches|
  {
    forall a: Match, b: Match
      ensures NotAfter(a, b) <==> InLineOrder(a, b)
    {
      NotAfterIsLineOrder(a, b);
    }
    if matches != [] {
      var n := |matches| - 1;
      ByLineIsStable(matches[..n], line);
      InsertedIsSorted(ByLine(matches[..n]), matches[n]);
      InsertedIsStable(ByLine(matches[..n]), matches[n], line);
      AtLineSnoc(ByLine(matches[..n]), matches[n], line);
    }
  }

  /** What a match adds to the lines of a file. */
  function LineIn(m: Match): seq<LineMatch> {
    if m.Line? then [m.line] else []
  }

  lemma LastMatch(matches: seq<Match>)
    requires matches != []
    ensures var n := |matches| - 1; LinesIn(matches) == LinesIn(matches[..n]) + LineIn(matches[n])
  {
    LinesSnoc(matches[..|matches| - 1], matches[|matches| - 1]);
    assert matches == matches[..|matches| - 1] + [matches[|matches| - 1]];
  }

  lemma InsertedStep(matches: seq<Match>, m: Match)
    requires matches != []
    ensures var n := |matches| - 1;
      Inserted(matches, m) == if NotAfter(matches[n], m) then matches + [m] else Inserted(matches[..n], m) + [matches[n]]
  {
  }

  lemma {:induction false} InsertedLines(matches: seq<Match>, m: Match)
    requires m.Line? ==> forall l <- LinesIn(matches) :: l.lineNumber < m.line.lineNumber
    ensures LinesIn(Inserted(matches, m)) == LinesIn(matches) + LineIn(m)
    decreases |matches|
  {
    if matches == [] {
      LinesSnoc([], m);
    } else {
      hide LinesIn, Inserted;
      var n := |matches| - 1;
      InsertedStep(matches, m);
      LastMatch(matches);
      assert forall l <- LineIn(matches[n]) :: l in LinesIn(matches);
      if NotAfter(matches[n], m) {
        LinesSnoc(matches, m);
      } else {
        InsertedLines(matches[..n], m);
        LinesSnoc(Inserted(matches[..n], m), matches[n]);
      }
    }
  }

  /** Sorting leaves lines where they are that come in order. */
  lemma {:induction false} ByLineKeepsLines(matches: seq<Match>)
    requires Increasing(LinesIn(matches))
    ensures LinesIn(ByLine(matches)) == LinesIn(matches)
    decreases |matches|
  {
    if matches != [] {
      var n := |matches| - 1;
      var front := LinesIn(matches[..n]);
      assert forall i | 0 <= i < |front| :: front[i] == LinesIn(matches)[i];
      ByLineKeepsLines(matches[..n]);
      if matches[n].Line? {
        assert LinesIn(matches)[|front|] == matches[n].line;
      }
      InsertedLines(ByLine(matches[..n]), matches[n]);
    }
  }

  // ------------------------------------------------------------------ merging the two legs

  function FromGrep(files: seq<FileMatches>): (entries: seq<Entry>)
    ensures |entries| == |files|
    ensures forall i | 0 <= i < |files| :: entries[i] == Entry(files[i].key, AsLines(files[i].matches))
  {
    seq(|files|, i requires 0 <= i < |files| => Entry(files[i].key, AsLines(files[i].matches)))
  }

  /** Fold one symbol definition into the file list, keeping the list in key order. */
  function Put(entries: seq<Entry>, key: FileCursor, hit: SymbolHit): (r: seq<Entry>)
    ensures r != []
    decreases |entries|
  {
    if entries == [] then [Entry(key, [Definition(hit)])]
    else if entries[0].key == key then
      [entries[0].(matches := entries[0].matches + [Definition(hit)])] + entries[1..]
    else if Less(key, entries[0].key) then [Entry(key, [Definition(hit)])] + entries
    else [entries[0]] + Put(entries[1..], key, hit)
  }

  function Merge(files: seq<FileMatches>, symbols: seq<(FileCursor, SymbolHit)>): seq<Entry>
    decreases |symbols|
  {
    if symbols == [] then FromGrep(files)
    else
      var n := |symbols| - 1;
      Put(Merge(files, symbols[..n]), symbols[n].0, symbols[n].1)
  }

  function SortedEntries(entries: seq<Entry>): (r: seq<Entry>)
    ensures |r| == |entries|
    ensures forall i | 0 <= i < |r| :: r[i] == Entry(entries[i].key, ByLine(entries[i].matches))
  {
    seq(|entries|, i requires 0 <= i < |entries| => Entry(entries[i].key, ByLine(entries[i].matches)))
  }

  /** The file list of a response: content and symbol matches by file, and by line within a file. */
  function Listing(files: seq<FileMatches>, symbols: seq<(FileCursor, SymbolHit)>): seq<Entry> {
    SortedEntries(Merge(files, symbols))
  }

  /** The content matches of an entry list, file by file. */
  function ContentOf(entries: seq<Entry>): seq<FileMatches>
    decreases |entries|
  {
    if entries == [] then [] else ContentOfEntry(entries[0]) + ContentOf(entries[1..])
  }

  function ContentOfEntry(e: Entry): seq<FileMatches> {
    if LinesIn(e.matches) != [] then [FileMatches(e.key, LinesIn(e.matches))] else []
  }

  lemma {:induction false} PutKeepsContent(entries: seq<Entry>, key: FileCursor, hit: SymbolHit)
    ensures ContentOf(Put(entries, key, hit)) == ContentOf(entries)
    decreases |entries|
  {
    var r := Put(entries, key, hit);
    LinesSnoc([], Definition(hit));
    assert [] + [Definition(hit)] == [Definition(hit)];
    if entries != [] {
      if entries[0].key == key {
        LinesSnoc(entries[0].matches, Definition(hit));
        assert r[1..] == entries[1..] && LinesIn(r[0].matches) == LinesIn(entries[0].matches);
        assert ContentOfEntry(r[0]) == ContentOfEntry(entries[0]);
      } else if Less(key, entries[0].key) {
        assert r[1..] == entries;
      } else {
        PutKeepsContent(entries[1..], key, hit);
        assert r[1..] == Put(entries[1..], key, hit);
      }
    }
  }

  lemma {:induction false} PutKeepsOrder(entries: seq<Entry>, key: FileCursor, hit: SymbolHit)
    requires OrderedEntries(entries)
    ensures OrderedEntries(Put(entries, key, hit))
    ensures forall e <- Put(entries, key, hit) :: e.key == key || exists f <- entries :: f.key == e.key
    decreases |entries|
  {
    if entries != [] {
      var r, head := Put(entries, key, hit), entries[0];
      assert entries == [head] + entries[1..];
      if head.key == key {
        assert forall i | 0 <= i < |r| :: r[i].key == entries[i].key;
      } else if Less(key, head.key) {
        forall i | 0 < i < |entries|
          ensures Less(key, entries[i].key)
        {
          Transitive(key, head.key, entries[i].key);
        }
      } else {
        var tail := Put(entries[1..], key, hit);
        PutKeepsOrder(entries[1..], key, hit);
        Total(key, head.key);
        forall e | e in tail
          ensures Less(head.key, e.key)
        {
          if e.key != key {
            var f :| f in entries[1..] && f.key == e.key;
          }
        }
        assert r == [head] + tail;
        assert forall i | 0 <= i < |tail| :: tail[i] in tail;
        assert head in entries;
      }
    }
  }

  /** Files as a grep page reports them: in order, each with lines, and the lines in order. */
  predicate ProperFiles(files: seq<FileMatches>) {
    && (forall i, j | 0 <= i < j < |files| :: Less(files[i].key, files[j].key))
    && forall f <- files :: f.matches != [] && Increasing(f.matches)
  }

  lemma {:induction false} GrepContent(files: seq<FileMatches>)
    requires forall f <- files :: f.matches != []
    ensures ContentOf(FromGrep(files)) == files
    decreases |files|
  {
    if files != [] {
      GrepContent(files[1..]);
      AsLinesKeeps(files[0].matches);
      assert FromGrep(files)[1..] == FromGrep(files[1..]);
    }
  }

  lemma {:induction false} SortingKeepsContent(entries: seq<Entry>)
    requires forall e <- entries :: Increasing(LinesIn(e.matches))
    ensures ContentOf(SortedEntries(entries)) == ContentOf(entries)
    decreases |entries|
  {
    hide LinesIn, ByLine, Increasing;
    if entries != [] {
      assert entries[0] in entries;
      ByLineKeepsLines(entries[0].matches);
      SortingKeepsContent(entries[1..]);
      assert SortedEntries(entries)[1..] == SortedEntries(entries[1..]);
    }
  }

  lemma {:induction false} LinesComeInOrder(entries: seq<Entry>, e: Entry)
    requires e in entries && forall f <- ContentOf(entries) :: Increasing(f.matches)
    ensures Increasing(LinesIn(e.matches))
  {
    if LinesIn(e.matches) != [] {
      ContentHas(entries, e);
    }
  }

  lemma {:induction false} MergeContent(files: seq<FileMatches>, symbols: seq<(FileCursor, SymbolHit)>)
    requires ProperFiles(files)
    ensures ContentOf(Merge(files, symbols)) == files && OrderedEntries(Merge(files, symbols))
    decreases |symbols|
  {
    if symbols == [] {
      GrepContent(files);
    } else {
      var n := |symbols| - 1;
      MergeContent(files, symbols[..n]);
      PutKeepsContent(Merge(files, symbols[..n]), symbols[n].0, symbols[n].1);
      PutKeepsOrder(Merge(files, symbols[..n]), symbols[n].0, symbols[n].1);
    }
  }

  /**
   Merging neither loses, adds nor reorders a content match, lists no file twice,
   and lists each file's matches by line.
   */
  lemma MergeKeepsContent(files: seq<FileMatches>, symbols: seq<(FileCursor, SymbolHit)>)
    requires ProperFiles(files)
    ensures ContentOf(Listing(files, symbols)) == files && OrderedEntries(Listing(files, symbols))
    ensures forall e <- Listing(files, symbols) :: SortedByLine(e.matches)
  {
    var merged := Merge(files, symbols);
    MergeContent(files, symbols);
    forall e | e in merged
      ensures Increasing(LinesIn(e.matches))
    {
      LinesComeInOrder(merged, e);
    }
    SortingKeepsContent(merged);
    forall e | e in Listing(files, symbols)
      ensures SortedByLine(e.matches)
    {
      var i :| 0 <= i < |merged| && e == Entry(merged[i].key, ByLine(merged[i].matches));
      ByLineIsStable(merged[i].matches, None);
    }
  }

  /** Does the list show this definition in this file? */
  predicate ShowsHit(entries: seq<Entry>, key: FileCursor, hit: SymbolHit) {
    exists e <- entries :: e.key == key && Definition(hit) in e.matches
  }

  lemma {:induction false} PutShows(entries: seq<Entry>, key: FileCursor, hit: SymbolHit, k: FileCursor, h: SymbolHit)
    ensures ShowsHit(Put(entries, key, hit), k, h) <==> (k, h) == (key, hit) || ShowsHit(entries, k, h)
    decreases |entries|
  {
    var r := Put(entries, key, hit);
    if entries == [] {
      assert r[0] in r;
    } else {
      assert entries == [entries[0]] + entries[1..];
      if entries[0].key == key {
        assert r == [r[0]] + entries[1..] && r[0] in r && entries[0] in entries;
        assert forall e <- entries[1..] :: e in r && e in entries;
      } else if Less(key, entries[0].key) {
        assert r[0] in r && forall e <- entries :: e in r;
      } else {
        PutShows(entries[1..], key, hit, k, h);
        assert r == [entries[0]] + Put(entries[1..], key, hit) && entries[0] in entries && entries[0] in r;
        assert forall e <- Put(entries[1..], key, hit) :: e in r;
        assert forall e <- entries[1..] :: e in entries;
      }
    }
  }

  lemma {:induction false} GrepShowsNoHit(files: seq<FileMatches>, key: FileCursor, hit: SymbolHit)
    ensures !ShowsHit(FromGrep(files), key, hit)
  {
    forall e | e in FromGrep(files)
      ensures Definition(hit) !in e.matches
    {
      var i :| 0 <= i < |files| && e == Entry(files[i].key, AsLines(files[i].matches));
    }
  }

  lemma {:induction false} MergeShows(
    files: seq<FileMatches>, symbols: seq<(FileCursor, SymbolHit)>, key: FileCursor, hit: SymbolHit)
    ensures ShowsHit(Merge(files, symbols), key, hit) <==> (key, hit) in symbols
    decreases |symbols|
  {
    if symbols == [] {
      GrepShowsNoHit(files, key, hit);
    } else {
      var n := |symbols| - 1;
      MergeShows(files, symbols[..n], key, hit);
      PutShows(Merge(files, symbols[..n]), symbols[n].0, symbols[n].1, key, hit);
      assert symbols == symbols[..n] + [symbols[n]];
    }
  }

  /** The list shows exactly the definitions of the symbol leg. */
  lemma ListingShowsHits(files: seq<FileMatches>, symbols: seq<(FileCursor, SymbolHit)>, key: FileCursor, hit: SymbolHit)
    ensures ShowsHit(Listing(files, symbols), key, hit) <==> (key, hit) in symbols
  {
    var merged, listing := Merge(files, symbols), Listing(files, symbols);
    MergeShows(files, symbols, key, hit);
    if ShowsHit(merged, key, hit) {
      var i :| 0 <= i < |merged| && merged[i].key == key && Definition(hit) in merged[i].matches;
      assert listing[i] in listing;
    }
    if ShowsHit(listing, key, hit) {
      var i :| 0 <= i < |listing| && listing[i].key == key && Definition(hit) in listing[i].matches;
      assert merged[i] in merged;
    }
  }

  method MergeLegs(files: seq<FileMatches>, symbols: seq<(FileCursor, SymbolHit)>) returns (entries: seq<Entry>)
    ensures entries == Listing(files, symbols)
  {
    var merged := FromGrep(files);
    for i := 0 to |symbols|
      invariant merged == Merge(files, symbols[..i])
    {
      assert symbols[..i + 1][..i] == symbols[..i];
      merged := Put(merged, symbols[i].0, symbols[i].1);
    }
    assert symbols[..|symbols|] == symbols;
    entries := SortedEntries(merged);
  }

  // ------------------------------------------------------------------ the symbol leg

  /** The definitions the query's symbol atoms name, candidate by candidate. */
  function Definitions(rows: seq<Candidate>, hits: FileCursor -> seq<SymbolHit>): seq<(FileCursor, SymbolHit)>
    decreases |rows|
  {
    if rows == [] then []
    else
      var row := rows[|rows| - 1];
      Definitions(rows[..|rows| - 1], hits)
      + seq(|hits(row.key)|, i requires 0 <= i < |hits(row.key)| => (row.key, hits(row.key)[i]))
  }

  /** The leg runs on page 1: the first candidates' definitions, capped like the candidates. */
  function SymbolLeg(cands: seq<Candidate>, hits: FileCursor -> seq<SymbolHit>, rowLimit: nat)
    : seq<(FileCursor, SymbolHit)>
  {
    var found := Definitions(Rows(cands, None, rowLimit), hits);
    found[..Min(rowLimit, |found|)]
  }

  lemma {:induction false} DefinitionIsOfRow(rows: seq<Candidate>, hits: FileCursor -> seq<SymbolHit>, k: nat)
    returns (i: nat)
    requires k < |Definitions(rows, hits)|
    ensures i < |rows| && rows[i].key == Definitions(rows, hits)[k].0
    decreases |rows|
  {
    var n := |rows| - 1;
    if k < |Definitions(rows[..n], hits)| {
      i := DefinitionIsOfRow(rows[..n], hits, k);
    } else {
      i := n;
    }
  }

  // ------------------------------------------------------------------ a trimmed page

  /**
   The page a reader sees after a trim to `keep` files whose last repo name resolves:
   its cursor is the last file's.
   */
  function Trimmed(cands: seq<Candidate>, p: Page, entries: seq<Entry>, keep: nat): Page
    requires 1 <= keep <= |entries|
  {
    var next := Some(entries[keep - 1].key);
    var start := Resume(cands, p.cursor);
    var consumed := if Resume(cands, next) > start then Resume(cands, next) - start else 0;
    var scanned := Min(p.scanned, consumed);
    Page(p.cursor, Min(p.kept, scanned), scanned, consumed, ContentOf(entries[..keep]), true, next)
  }

  /** The files whose key passes a test: below, being at or before a cursor. */
  function Passing(files: seq<FileMatches>, test: FileCursor -> bool): seq<FileMatches>
    decreases |files|
  {
    if files == [] then []
    else
      var n := |files| - 1;
      Passing(files[..n], test) + if test(files[n].key) then [files[n]] else []
  }

  lemma {:induction false} PassingConcat(a: seq<FileMatches>, b: seq<FileMatches>, test: FileCursor -> bool)
    ensures Passing(a + b, test) == Passing(a, test) + Passing(b, test)
    decreases |b|
  {
    if b == [] {
      assert a + b == a;
    } else {
      var n := |b| - 1;
      PassingConcat(a, b[..n], test);
      assert (a + b)[..|a| + n] == a + b[..n];
    }
  }

  /** If the test cuts the entries after the first `keep`, so it cuts their content. */
  lemma {:induction false} PassingEntries(entries: seq<Entry>, keep: nat, test: FileCursor -> bool)
    requires keep <= |entries| && forall i | 0 <= i < |entries| :: test(entries[i].key) <==> i < keep
    ensures ContentOf(entries[..keep]) == Passing(ContentOf(entries), test)
    decreases |entries|
  {
    hide Passing, ContentOfEntry;
    if entries == [] {
      assert entries[..keep] == entries;
      NothingPasses(test);
    } else {
      var first := ContentOfEntry(entries[0]);
      PassingConcat(first, ContentOf(entries[1..]), test);
      PassingEntry(entries[0], test);
      if keep > 0 {
        PassingEntries(entries[1..], keep - 1, test);
        assert entries[..keep][1..] == entries[1..][..keep - 1] && entries[..keep][0] == entries[0];
      } else {
        PassingEntries(entries[1..], 0, test);
        assert entries[..0] == [] && entries[1..][..0] == [];
      }
    }
  }

  lemma NothingPasses(test: FileCursor -> bool)
    ensures Passing(ContentOf([]), test) == ContentOf([])
  {
  }

  lemma PassingEntry(e: Entry, test: FileCursor -> bool)
    ensures Passing(ContentOfEntry(e), test) == if test(e.key) then ContentOfEntry(e) else []
  {
    hide LinesIn;
    var one := [FileMatches(e.key, LinesIn(e.matches))];
    assert one[..0] == [];
  }

  /** The end of the candidates in [lo, hi) that lie before `cut`. */
  function Clip(lo: nat, hi: nat, cut: nat): (n: nat)
    requires lo <= hi
    ensures lo <= n <= hi
  {
    if cut < lo then lo else if cut < hi then cut else hi
  }

  lemma WithMatchesSnoc(cands: seq<Candidate>, lo: nat, hi: nat)
    requires lo < hi <= |cands|
    ensures WithMatches(cands[lo..hi]) == WithMatches(cands[lo..hi - 1])
      + if cands[hi - 1].matches != [] then [FileMatches(cands[hi - 1].key, cands[hi - 1].matches)] else []
  {
    assert cands[lo..hi][..hi - 1 - lo] == cands[lo..hi - 1] && cands[lo..hi][hi - 1 - lo] == cands[hi - 1];
  }

  /** If the test cuts the candidates at `cut`, so it cuts their matches. */
  lemma {:induction false} PassingCandidates(
    cands: seq<Candidate>, lo: nat, hi: nat, cut: nat, test: FileCursor -> bool)
    requires lo <= hi <= |cands| && forall i | lo <= i < hi :: test(cands[i].key) <==> i < cut
    ensures Passing(WithMatches(cands[lo..hi]), test) == WithMatches(cands[lo..Clip(lo, hi, cut)])
    decreases hi - lo
  {
    hide WithMatches, Passing;
    if lo < hi {
      var n := hi - 1;
      var last := if cands[n].matches != [] then [FileMatches(cands[n].key, cands[n].matches)] else [];
      PassingCandidates(cands, lo, n, cut, test);
      WithMatchesSnoc(cands, lo, hi);
      PassingConcat(WithMatches(cands[lo..n]), last, test);
      PassingOne(cands[n], test);
      if cut <= n {
        assert Clip(lo, hi, cut) == Clip(lo, n, cut);
      } else {
        assert Clip(lo, hi, cut) == hi && Clip(lo, n, cut) == n;
      }
    } else {
      assert cands[lo..hi] == [] && cands[lo..Clip(lo, hi, cut)] == [];
      PassingNone(test);
    }
  }

  lemma PassingNone(test: FileCursor -> bool)
    ensures Passing(WithMatches([]), test) == WithMatches([])
  {
  }

  lemma PassingOne(c: Candidate, test: FileCursor -> bool)
    ensures var one := if c.matches != [] then [FileMatches(c.key, c.matches)] else [];
      Passing(one, test) == if test(c.key) then one else []
  {
    var one := [FileMatches(c.key, c.matches)];
    assert one[..0] == [];
  }

  lemma TrimmedContent(cands: seq<Candidate>, entries: seq<Entry>, keep: nat, lo: nat, hi: nat)
    requires Ordered(cands) && OrderedEntries(entries) && 1 <= keep <= |entries| && lo <= hi <= |cands|
    requires ContentOf(entries) == WithMatches(cands[lo..hi])
    ensures ContentOf(entries[..keep]) == WithMatches(cands[lo..Clip(lo, hi, Resume(cands, Some(entries[keep - 1].key)))])
  {
    var key := entries[keep - 1].key;
    var test := k => AtMost(k, key);
    forall i | 0 <= i < |entries|
      ensures test(entries[i].key) <==> i < keep
    {
      Total(entries[i].key, key);
    }
    forall i | lo <= i < hi
      ensures test(cands[i].key) <==> i < Resume(cands, Some(key))
    {
      ResumeSplits(cands, key, i);
    }
    PassingEntries(entries, keep, test);
    PassingCandidates(cands, lo, hi, Resume(cands, Some(key)), test);
  }

  /** What the trim needs of a page: its files in order, and symbols on page 1 only. */
  predicate Trimmable(cands: seq<Candidate>, p: Page, entries: seq<Entry>) {
    && SoundPage(cands, p) && OrderedEntries(entries) && ContentOf(entries) == p.files
    && (p.cursor.Some? ==> forall e <- entries :: LinesIn(e.matches) != [])
  }

  /** A trimmed page is sound: it shows what it scanned and resumes behind what it consumed. */
  lemma TrimmedPageIsSound(cands: seq<Candidate>, p: Page, entries: seq<Entry>, keep: nat)
    requires Ordered(cands) && Trimmable(cands, p, entries) && 1 <= keep <= |entries|
    ensures SoundPage(cands, Trimmed(cands, p, entries, keep))
  {
    hide Ordered, ContentOf, WithMatches, Less, LinesIn, Resume, OrderedEntries;
    var start := Resume(cands, p.cursor);
    if p.cursor.Some? {
      EntryIsBehindCursor(cands, p, entries, entries[keep - 1]);
    } else {
      StartsAtZero(cands);
    }
    TrimmedContent(cands, entries, keep, start, start + p.kept);
  }

  lemma StartsAtZero(cands: seq<Candidate>)
    ensures Resume(cands, None) == 0
  {
  }

  lemma EntryIsBehindCursor(cands: seq<Candidate>, p: Page, entries: seq<Entry>, e: Entry)
    requires Ordered(cands) && SoundPage(cands, p) && ContentOf(entries) == p.files
    requires e in entries && LinesIn(e.matches) != []
    ensures Resume(cands, Some(e.key)) > Resume(cands, p.cursor)
  {
    hide LinesIn, WithMatches, Less;
    ContentHas(entries, e);
    var start := Resume(cands, p.cursor);
    var j := FromCandidates(cands, start, start + p.kept, FileMatches(e.key, LinesIn(e.matches)));
    ResumeAtKey(cands, j);
  }

  lemma {:induction false} ContentHas(entries: seq<Entry>, e: Entry)
    requires e in entries && LinesIn(e.matches) != []
    ensures FileMatches(e.key, LinesIn(e.matches)) in ContentOf(entries)
    decreases |entries|
  {
    if entries[0] != e {
      ContentHas(entries[1..], e);
    }
  }

  lemma {:induction false} FromCandidates(cands: seq<Candidate>, lo: nat, hi: nat, f: FileMatches) returns (j: nat)
    requires lo <= hi <= |cands| && f in WithMatches(cands[lo..hi])
    ensures lo <= j < hi && cands[j].key == f.key && cands[j].matches == f.matches != []
    decreases hi - lo
  {
    var n := hi - 1;
    assert cands[lo..hi][..n - lo] == cands[lo..n] && cands[lo..hi][n - lo] == cands[n];
    if f == FileMatches(cands[n].key, cands[n].matches) && cands[n].matches != [] {
      j := n;
    } else {
      j := FromCandidates(cands, lo, n, f);
    }
  }

  /**
   A trimmed page skips candidate `j` exactly when grep did not scan it, it has
   matches, and the last file that stays lies at or behind it.
   */
  lemma TrimSkipsExactlyWhen(cands: seq<Candidate>, p: Page, entries: seq<Entry>, keep: nat, j: nat)
    requires Ordered(cands) && Trimmable(cands, p, entries) && 1 <= keep <= |entries| && j < |cands|
    requires p.scanned == p.consumed
    ensures Skips(cands, Trimmed(cands, p, entries, keep), j) <==>
      Start(cands, p) + p.scanned <= j && cands[j].matches != [] && AtMost(cands[j].key, entries[keep - 1].key)
  {
    hide Ordered, ContentOf, WithMatches, Less, LinesIn, Resume, OrderedEntries, AtMost;
    ResumeSplits(cands, entries[keep - 1].key, j);
    if p.cursor.Some? {
      EntryIsBehindCursor(cands, p, entries, entries[keep - 1]);
    } else {
      StartsAtZero(cands);
    }
  }

  // ------------------------------------------------------------------ following the cursors

  /** The lengths of a response before its trim, and the budget it has to meet. */
  datatype Wire = Wire(envelope: ResponseTrim.Envelope, files: seq<ResponseTrim.Listed>, budget: nat)

  /** One response: grep's page, the symbols merged in, whether the symbol leg was cut, and what it all comes to. */
  datatype Served = Served(grep: Page, symbols: seq<(FileCursor, SymbolHit)>, symbolsCut: bool, wire: Wire)
  {
    /** If the response is over its budget, how many files the trim leaves. */
    function Keep(): (keep: Option<nat>)
      ensures keep.Some? ==> keep.value <= |wire.files| && (keep.value == 0 <==> wire.files == [])
    {
      if ResponseTrim.WireLength(wire.envelope, wire.files) <= wire.budget then None
      else if wire.files == [] then Some(0)
      else Some(ResponseTrim.Keep(wire.envelope, wire.files, wire.budget))
    }
  }

  function Entries(s: Served): seq<Entry> {
    Listing(s.grep.files, s.symbols)
  }

  ghost predicate ServesGrep(cands: seq<Candidate>, rowLimit: nat, maxContentBytes: nat, p: Page) {
    exists late: nat -> bool, trips: nat -> bool :: IsGrepPage(cands, rowLimit, maxContentBytes, late, trips, p)
  }

  /** The symbol leg runs on page 1 only, and may time out there. What is measured is the list of all files. */
  ghost predicate IsServed(
    cands: seq<Candidate>, rowLimit: nat, maxContentBytes: nat, hits: FileCursor -> seq<SymbolHit>, s: Served)
  {
    && ServesGrep(cands, rowLimit, maxContentBytes, s.grep)
    && (s.symbols != [] ==> s.grep.cursor.None? && s.symbols == SymbolLeg(cands, hits, rowLimit))
    && |s.wire.files| == |Entries(s)|
    && s.wire.envelope.truncated == (s.grep.truncated || s.symbolsCut)
  }

  /** The files a response lists. */
  function Shown(s: Served): seq<Entry> {
    if s.Keep().Some? && s.Keep().value <= |Entries(s)| then Entries(s)[..s.Keep().value] else Entries(s)
  }

  /** Did the budget cut this response down to some of its files? */
  predicate CutDown(s: Served) {
    s.Keep().Some? && 1 <= s.Keep().value <= |Entries(s)|
  }

  /** The page a reader sees. A trimmed response without files loses its cursor. */
  function Seen(cands: seq<Candidate>, s: Served): Page {
    if CutDown(s) then Trimmed(cands, s.grep, Entries(s), s.Keep().value)
    else if s.Keep().Some? then s.grep.(truncated := true, nextCursor := None)
    else s.grep.(truncated := s.grep.truncated || s.symbolsCut)
  }

  /**
   What a reader sees of one response. If it fits its budget it is untouched; if not,
   it is flagged. Without files it then has no cursor; else it has a first part of its
   files, at least one, and the cursor of the last of them.
   */
  lemma SeenExactly(cands: seq<Candidate>, s: Served)
    requires |s.wire.files| == |Entries(s)|
    ensures var fits := ResponseTrim.WireLength(s.wire.envelope, s.wire.files) <= s.wire.budget;
      && (fits ==> Shown(s) == Entries(s) && Seen(cands, s) == s.grep.(truncated := s.grep.truncated || s.symbolsCut))
      && (!fits ==> Seen(cands, s).truncated)
      && (!fits && Entries(s) == [] ==> Seen(cands, s).nextCursor.None?)
      && (!fits && Entries(s) != [] ==>
            && 1 <= |Shown(s)| <= |Entries(s)| && Shown(s) == Entries(s)[..|Shown(s)|]
            && Seen(cands, s).nextCursor == Some(Shown(s)[|Shown(s)| - 1].key))
  {
    hide Entries, Resume, ContentOf, ResponseTrim.WireLength;
  }

  /** What holds of every candidate list: key order, files within the byte cap, lines in order. */
  predicate ProperCandidates(cands: seq<Candidate>, maxContentBytes: nat) {
    Ordered(cands) && WithinCap(cands, maxContentBytes) && forall c <- cands :: Increasing(c.matches)
  }

  lemma {:induction false} SliceIsProper(cands: seq<Candidate>, lo: nat, hi: nat)
    requires Ordered(cands) && lo <= hi <= |cands| && forall c <- cands :: Increasing(c.matches)
    ensures ProperFiles(WithMatches(cands[lo..hi]))
    decreases hi - lo
  {
    hide WithMatches, Less, Increasing;
    if lo < hi {
      var n := hi - 1;
      SliceIsProper(cands, lo, n);
      WithMatchesSnoc(cands, lo, hi);
      var before := WithMatches(cands[lo..n]);
      forall f | f in before
        ensures Less(f.key, cands[n].key)
      {
        var j := FromCandidates(cands, lo, n, f);
      }
      ProperSnoc(before, cands[n]);
    } else {
      assert cands[lo..hi] == [];
      NoMatches();
    }
  }

  lemma NoMatches()
    ensures WithMatches([]) == []
  {
  }

  lemma ProperSnoc(before: seq<FileMatches>, c: Candidate)
    requires ProperFiles(before) && Increasing(c.matches) && forall f <- before :: Less(f.key, c.key)
    ensures ProperFiles(before + if c.matches != [] then [FileMatches(c.key, c.matches)] else [])
  {
    hide Less, Increasing;
    assert forall i | 0 <= i < |before| :: before[i] in before;
    assert before + [] == before;
  }

  /** The list of every response can be trimmed. */
  lemma ServedIsTrimmable(
    cands: seq<Candidate>, rowLimit: nat, maxContentBytes: nat, hits: FileCursor -> seq<SymbolHit>, s: Served)
    requires rowLimit > 0 && ProperCandidates(cands, maxContentBytes)
    requires IsServed(cands, rowLimit, maxContentBytes, hits, s)
    ensures Trimmable(cands, s.grep, Entries(s)) && s.grep.scanned == s.grep.consumed
    ensures !s.grep.truncated ==> s.grep.kept == |Rows(cands, s.grep.cursor, rowLimit)|
    ensures s.symbols == [] ==> forall e <- Entries(s) :: LinesIn(e.matches) != []
  {
    ServedGrepIsSound(cands, rowLimit, maxContentBytes, s);
    hide *;
    EntriesHoldTheContent(cands, maxContentBytes, s);
    SymbolsOnFirstPage(cands, rowLimit, maxContentBytes, hits, s);
    TrimmableIs(cands, s.grep, Entries(s));
  }

  lemma SymbolsOnFirstPage(
    cands: seq<Candidate>, rowLimit: nat, maxContentBytes: nat, hits: FileCursor -> seq<SymbolHit>, s: Served)
    requires IsServed(cands, rowLimit, maxContentBytes, hits, s)
    ensures s.grep.cursor.Some? ==> s.symbols == []
  {
    hide ServesGrep, SymbolLeg, Listing;
  }

  lemma TrimmableIs(cands: seq<Candidate>, p: Page, entries: seq<Entry>)
    requires SoundPage(cands, p) && OrderedEntries(entries) && ContentOf(entries) == p.files
    requires p.cursor.Some? ==> forall e <- entries :: LinesIn(e.matches) != []
    ensures Trimmable(cands, p, entries)
  {
    hide SoundPage, OrderedEntries, ContentOf, LinesIn;
  }

  lemma ServedGrepIsSound(cands: seq<Candidate>, rowLimit: nat, maxContentBytes: nat, s: Served)
    requires rowLimit > 0 && ProperCandidates(cands, maxContentBytes) && ServesGrep(cands, rowLimit, maxContentBytes, s.grep)
    ensures SoundPage(cands, s.grep) && s.grep.scanned == s.grep.consumed
    ensures !s.grep.truncated ==> s.grep.kept == |Rows(cands, s.grep.cursor, rowLimit)|
  {
    hide Ordered, WithinCap, Increasing, PageOutcome, Rows, SoundPage;
    var late: nat -> bool, trips: nat -> bool :| IsGrepPage(cands, rowLimit, maxContentBytes, late, trips, s.grep);
    GrepPageIsSound(cands, rowLimit, maxContentBytes, late, trips, s.grep);
  }

  /** The list of a response is in key order and holds grep's content; without symbols it holds nothing else. */
  lemma EntriesHoldTheContent(cands: seq<Candidate>, maxContentBytes: nat, s: Served)
    requires ProperCandidates(cands, maxContentBytes) && SoundPage(cands, s.grep)
    ensures OrderedEntries(Entries(s)) && ContentOf(Entries(s)) == s.grep.files
    ensures s.symbols == [] ==> forall e <- Entries(s) :: LinesIn(e.matches) != []
  {
    hide Ordered, WithMatches, LinesIn, Resume, Increasing, OrderedEntries, WithinCap, Listing, ContentOf, ProperFiles;
    var start := Resume(cands, s.grep.cursor);
    SliceIsProper(cands, start, start + s.grep.kept);
    MergeKeepsContent(s.grep.files, s.symbols);
    if s.symbols == [] {
      GrepEntriesHaveLines(s.grep.files);
    }
  }

  lemma GrepEntriesHaveLines(files: seq<FileMatches>)
    requires ProperFiles(files)
    ensures forall e <- Listing(files, []) :: LinesIn(e.matches) != []
  {
    hide Listing, LinesIn, ProperFiles;
    forall e | e in Listing(files, [])
      ensures LinesIn(e.matches) != []
    {
      GrepEntryHasLines(files, e);
    }
  }

  lemma GrepEntryHasLines(files: seq<FileMatches>, e: Entry)
    requires ProperFiles(files) && e in Listing(files, [])
    ensures LinesIn(e.matches) != []
  {
    hide LinesIn, Increasing;
    var i :| 0 <= i < |files| && e == Entry(files[i].key, ByLine(AsLines(files[i].matches)));
    assert files[i] in files;
    AsLinesKeeps(files[i].matches);
    ByLineKeepsLines(AsLines(files[i].matches));
  }

  /** The responses to a reader who follows the cursors. */
  ghost predicate IsServedTraversal(
    cands: seq<Candidate>, rowLimit: nat, maxContentBytes: nat, hits: FileCursor -> seq<SymbolHit>, served: seq<Served>)
  {
    && served != [] && served[0].grep.cursor.None?
    && (forall s <- served :: IsServed(cands, rowLimit, maxContentBytes, hits, s))
    && forall i | 0 <= i < |served| - 1 ::
         && Seen(cands, served[i]).nextCursor.Some?
         && served[i + 1].grep.cursor == Seen(cands, served[i]).nextCursor
  }

  function SeenPages(cands: seq<Candidate>, served: seq<Served>): (pages: seq<Page>)
    ensures |pages| == |served| && forall i | 0 <= i < |served| :: pages[i] == Seen(cands, served[i])
  {
    seq(|served|, i requires 0 <= i < |served| => Seen(cands, served[i]))
  }

  /** Trimmed or not, the pages such a reader sees are a traversal. */
  lemma SeenPagesTraverse(
    cands: seq<Candidate>, rowLimit: nat, maxContentBytes: nat, hits: FileCursor -> seq<SymbolHit>, served: seq<Served>)
    requires rowLimit > 0 && ProperCandidates(cands, maxContentBytes)
    requires IsServedTraversal(cands, rowLimit, maxContentBytes, hits, served)
    ensures IsTraversal(cands, SeenPages(cands, served))
  {
    hide SoundPage, IsServed, Seen, ProperCandidates, ContentOf, Shown;
    var pages := SeenPages(cands, served);
    forall p | p in pages
      ensures SoundPage(cands, p)
    {
      var i :| 0 <= i < |served| && p == Seen(cands, served[i]);
      assert served[i] in served;
      SeenIsSound(cands, rowLimit, maxContentBytes, hits, served[i]);
    }
    SeenCursor(cands, served[0]);
    forall i | 0 <= i < |pages| - 1
      ensures pages[i].nextCursor.Some? && pages[i + 1].cursor == pages[i].nextCursor
    {
      SeenCursor(cands, served[i + 1]);
    }
  }

  /** A trim does not change where a page starts. */
  lemma SeenCursor(cands: seq<Candidate>, s: Served)
    ensures Seen(cands, s).cursor == s.grep.cursor
  {
    hide Resume, Entries, ContentOf, Served.Keep;
  }

  lemma SeenIsSound(
    cands: seq<Candidate>, rowLimit: nat, maxContentBytes: nat, hits: FileCursor -> seq<SymbolHit>, s: Served)
    requires rowLimit > 0 && ProperCandidates(cands, maxContentBytes)
    requires IsServed(cands, rowLimit, maxContentBytes, hits, s)
    ensures SoundPage(cands, Seen(cands, s)) && Seen(cands, s).files == ContentOf(Shown(s))
  {
    ServedIsTrimmable(cands, rowLimit, maxContentBytes, hits, s);
    if !CutDown(s) {
      EmptyIsWhole(cands, rowLimit, maxContentBytes, hits, s);
    }
    hide *;
    if CutDown(s) {
      CutPageIsSound(cands, maxContentBytes, s);
    } else {
      WholePageIsSound(cands, s);
    }
  }

  lemma EmptyIsWhole(
    cands: seq<Candidate>, rowLimit: nat, maxContentBytes: nat, hits: FileCursor -> seq<SymbolHit>, s: Served)
    requires IsServed(cands, rowLimit, maxContentBytes, hits, s) && !CutDown(s)
    ensures Shown(s) == Entries(s)
  {
    hide Listing, ServesGrep, SymbolLeg;
  }

  lemma CutPageIsSound(cands: seq<Candidate>, maxContentBytes: nat, s: Served)
    requires ProperCandidates(cands, maxContentBytes) && CutDown(s) && Trimmable(cands, s.grep, Entries(s))
    ensures SoundPage(cands, Seen(cands, s)) && Seen(cands, s).files == ContentOf(Shown(s))
  {
    hide SoundPage, Trimmable, Entries, ContentOf, Ordered, WithinCap, Increasing, Resume;
    TrimmedPageIsSound(cands, s.grep, Entries(s), s.Keep().value);
  }

  lemma WholePageIsSound(cands: seq<Candidate>, s: Served)
    requires !CutDown(s) && Trimmable(cands, s.grep, Entries(s)) && Shown(s) == Entries(s)
    ensures SoundPage(cands, Seen(cands, s)) && Seen(cands, s).files == ContentOf(Shown(s))
  {
    hide Resume, WithMatches, Entries, OrderedEntries, ContentOf;
  }

  /**
   The trim composes with the cursors. Of every candidate with matches that the pages
   consume, exactly one page shows all matches, and no other page shows any; it
   misses them if and only if its own grep gave up on the candidate for lack of time,
   or it was page 1, trimmed, and its last file lies at or behind a candidate that
   grep did not get to.
   */
  lemma TrimmedTraversalShowsEachMatch(
    cands: seq<Candidate>, rowLimit: nat, maxContentBytes: nat, hits: FileCursor -> seq<SymbolHit>, served: seq<Served>,
    j: nat)
    requires rowLimit > 0 && ProperCandidates(cands, maxContentBytes)
    requires IsServedTraversal(cands, rowLimit, maxContentBytes, hits, served)
    requires var pages := SeenPages(cands, served); j < ConsumedBy(pages)
    requires j < |cands| && cands[j].matches != []
    ensures var pages := SeenPages(cands, served);
      exists i | 0 <= i < |pages| ::
        && OnlyPage(cands, pages, j, i)
        && (Shows(pages[i], cands[j].key) <==> !GivesUp(cands, served[i].grep, j) && !Overtaken(cands, served, i, j))
  {
    var pages := SeenPages(cands, served);
    SeenPagesTraverse(cands, rowLimit, maxContentBytes, hits, served);
    EachMatchShownOnce(cands, pages, j);
    var i :| 0 <= i < |pages| && OnlyPage(cands, pages, j, i);
    assert served[i] in served;
    MissesExactlyWhen(cands, rowLimit, maxContentBytes, hits, served, i, j);
  }

  /** Is response `i` page 1, trimmed to a last file at or behind candidate `j`, which grep did not scan? */
  predicate Overtaken(cands: seq<Candidate>, served: seq<Served>, i: nat, j: nat)
    requires i < |served| && j < |cands|
  {
    var s := served[i];
    && i == 0 && s.symbols != [] && CutDown(s)
    && s.grep.scanned <= j && AtMost(cands[j].key, Entries(s)[s.Keep().value - 1].key)
  }

  lemma MissesExactlyWhen(
    cands: seq<Candidate>, rowLimit: nat, maxContentBytes: nat, hits: FileCursor -> seq<SymbolHit>, served: seq<Served>,
    i: nat, j: nat)
    requires rowLimit > 0 && ProperCandidates(cands, maxContentBytes)
    requires IsServedTraversal(cands, rowLimit, maxContentBytes, hits, served)
    requires i < |served| && j < |cands| && cands[j].matches != [] && IsServed(cands, rowLimit, maxContentBytes, hits, served[i])
    requires Consumes(cands, Seen(cands, served[i]), j)
    ensures GivesUp(cands, Seen(cands, served[i]), j) <==> GivesUp(cands, served[i].grep, j)
    ensures Skips(cands, Seen(cands, served[i]), j) <==> Overtaken(cands, served, i, j)
  {
    hide *;
    var s := served[i];
    ProperIsOrdered(cands, maxContentBytes);
    ServedIsTrimmable(cands, rowLimit, maxContentBytes, hits, s);
    CursorsAfterTheFirst(cands, rowLimit, maxContentBytes, hits, served, i);
    if CutDown(s) {
      CutPageMisses(cands, s, j);
    } else {
      WholePageMisses(cands, s, j);
    }
    OvertakenIs(cands, served, i, j);
  }

  lemma ProperIsOrdered(cands: seq<Candidate>, maxContentBytes: nat)
    requires ProperCandidates(cands, maxContentBytes)
    ensures Ordered(cands)
  {
  }

  lemma OvertakenIs(cands: seq<Candidate>, served: seq<Served>, i: nat, j: nat)
    requires i < |served| && j < |cands| && cands[j].matches != []
    requires (served[i].grep.cursor.None? <==> i == 0) && (i > 0 ==> served[i].symbols == [])
    ensures var s := served[i];
      Overtaken(cands, served, i, j) <==>
        && CutDown(s) && s.symbols != []
        && Start(cands, s.grep) + s.grep.scanned <= j && AtMost(cands[j].key, Entries(s)[s.Keep().value - 1].key)
  {
    hide AtMost, Entries;
    StartsAtZero(cands);
  }

  lemma WholePageMisses(cands: seq<Candidate>, s: Served, j: nat)
    requires !CutDown(s) && s.grep.scanned == s.grep.consumed && j < |cands|
    ensures GivesUp(cands, Seen(cands, s), j) <==> GivesUp(cands, s.grep, j)
    ensures !Skips(cands, Seen(cands, s), j)
  {
    hide Resume;
  }

  lemma CutPageMisses(cands: seq<Candidate>, s: Served, j: nat)
    requires Ordered(cands) && CutDown(s) && Trimmable(cands, s.grep, Entries(s)) && s.grep.scanned == s.grep.consumed
    requires j < |cands| && cands[j].matches != [] && Consumes(cands, Seen(cands, s), j)
    requires s.symbols == [] ==> forall e <- Entries(s) :: LinesIn(e.matches) != []
    ensures GivesUp(cands, Seen(cands, s), j) <==> GivesUp(cands, s.grep, j)
    ensures Skips(cands, Seen(cands, s), j) <==>
      s.symbols != [] && Start(cands, s.grep) + s.grep.scanned <= j
      && AtMost(cands[j].key, Entries(s)[s.Keep().value - 1].key)
  {
    hide Resume, ContentOf, LinesIn, Ordered, OrderedEntries, WithMatches, AtMost, Entries;
    var last := Entries(s)[s.Keep().value - 1];
    TrimSkipsExactlyWhen(cands, s.grep, Entries(s), s.Keep().value, j);
    if s.symbols == [] && AtMost(cands[j].key, last.key) {
      ContentIsScanned(cands, s.grep, Entries(s), last, j);
    }
  }

  lemma CursorsAfterTheFirst(
    cands: seq<Candidate>, rowLimit: nat, maxContentBytes: nat, hits: FileCursor -> seq<SymbolHit>, served: seq<Served>,
    i: nat)
    requires IsServedTraversal(cands, rowLimit, maxContentBytes, hits, served) && i < |served|
    ensures served[i].grep.cursor.None? <==> i == 0
    ensures i > 0 ==> served[i].symbols == []
  {
    assert served[i] in served;
    if i > 0 {
      assert Seen(cands, served[i - 1]).nextCursor.Some?;
    }
  }

  /** What sorts at or before a file with content matches was scanned for the page that lists it. */
  lemma ContentIsScanned(cands: seq<Candidate>, p: Page, entries: seq<Entry>, e: Entry, j: nat)
    requires Ordered(cands) && SoundPage(cands, p) && ContentOf(entries) == p.files
    requires e in entries && LinesIn(e.matches) != []
    requires j < |cands| && AtMost(cands[j].key, e.key)
    ensures j < Start(cands, p) + p.scanned
  {
    hide LinesIn, WithMatches, Less;
    ContentHas(entries, e);
    var start := Resume(cands, p.cursor);
    var k := FromCandidates(cands, start, start + p.kept, FileMatches(e.key, LinesIn(e.matches)));
    NotBehind(cands, j, k);
  }

  lemma NotBehind(cands: seq<Candidate>, j: nat, k: nat)
    requires Ordered(cands) && j < |cands| && k < |cands| && AtMost(cands[j].key, cands[k].key)
    ensures j <= k
  {
    Total(cands[j].key, cands[k].key);
  }

  lemma {:induction false} MergeKeys(files: seq<FileMatches>, symbols: seq<(FileCursor, SymbolHit)>, e: Entry)
    requires ProperFiles(files) && e in Merge(files, symbols)
    ensures (exists f <- files :: f.key == e.key) || (exists s <- symbols :: s.0 == e.key)
    decreases |symbols|
  {
    hide Less, Increasing;
    if symbols == [] {
      var i :| 0 <= i < |files| && e == Entry(files[i].key, AsLines(files[i].matches));
      assert files[i] in files;
    } else {
      var n := |symbols| - 1;
      assert symbols == symbols[..n] + [symbols[n]];
      MergeContent(files, symbols[..n]);
      PutKeepsOrder(Merge(files, symbols[..n]), symbols[n].0, symbols[n].1);
      if e.key == symbols[n].0 {
        assert symbols[n] in symbols;
      } else {
        var f :| f in Merge(files, symbols[..n]) && f.key == e.key;
        MergeKeys(files, symbols[..n], f);
        assert forall s <- symbols[..n] :: s in symbols;
      }
    }
  }

  /**
   Page 1 overtakes a candidate only if grep was cut short by its byte cap or its
   match budget: the symbol leg lists none but the candidates grep would scan.
   */
  lemma OvertakenOnlyWhenCut(
    cands: seq<Candidate>, rowLimit: nat, maxContentBytes: nat, hits: FileCursor -> seq<SymbolHit>, served: seq<Served>,
    j: nat)
    requires rowLimit > 0 && ProperCandidates(cands, maxContentBytes)
    requires IsServedTraversal(cands, rowLimit, maxContentBytes, hits, served) && j < |cands|
    requires Overtaken(cands, served, 0, j)
    ensures served[0].grep.truncated
  {
    hide Served.Keep, ServesGrep, Seen, Entries, Ordered, WithinCap, AtMost, OrderedEntries, ContentOf, WithMatches;
    var s := served[0];
    assert s in served;
    ServedIsTrimmable(cands, rowLimit, maxContentBytes, hits, s);
    StartsAtZero(cands);
    if !s.grep.truncated {
      assert s.symbols == SymbolLeg(cands, hits, rowLimit) && CutDown(s) && Trimmable(cands, s.grep, Entries(s));
      CutPageIsListed(cands, maxContentBytes, s);
      hide *;
      OvertakenKey(cands, served, j);
      KeyIsARow(cands, rowLimit, hits, s, Entries(s)[s.Keep().value - 1].key, j);
    }
  }

  lemma OvertakenKey(cands: seq<Candidate>, served: seq<Served>, j: nat)
    requires served != [] && j < |cands| && Overtaken(cands, served, 0, j)
    ensures CutDown(served[0]) && served[0].grep.scanned <= j
    ensures AtMost(cands[j].key, Entries(served[0])[served[0].Keep().value - 1].key)
  {
    hide AtMost, Entries;
  }

  lemma CutPageIsListed(cands: seq<Candidate>, maxContentBytes: nat, s: Served)
    requires ProperCandidates(cands, maxContentBytes) && CutDown(s) && SoundPage(cands, s.grep)
    ensures var key := Entries(s)[s.Keep().value - 1].key;
      (exists f <- s.grep.files :: f.key == key) || (exists x <- s.symbols :: x.0 == key)
  {
    var start := Start(cands, s.grep);
    hide Merge, Less, WithMatches, Resume, Increasing, Ordered, ProperFiles, ContentOf, SortedEntries;
    SliceIsProper(cands, start, start + s.grep.kept);
    ListedKey(s.grep.files, s.symbols, s.Keep().value - 1);
  }

  lemma ListedKey(files: seq<FileMatches>, symbols: seq<(FileCursor, SymbolHit)>, k: nat)
    requires ProperFiles(files) && k < |Listing(files, symbols)|
    ensures var key := Listing(files, symbols)[k].key;
      (exists f <- files :: f.key == key) || (exists x <- symbols :: x.0 == key)
  {
    hide Merge, ProperFiles;
    var merged := Merge(files, symbols);
    assert merged[k] in merged;
    MergeKeys(files, symbols, merged[k]);
  }

  lemma KeyIsARow(
    cands: seq<Candidate>, rowLimit: nat, hits: FileCursor -> seq<SymbolHit>, s: Served, key: FileCursor, j: nat)
    requires Ordered(cands) && SoundPage(cands, s.grep) && s.grep.cursor.None?
    requires s.symbols == SymbolLeg(cands, hits, rowLimit) && s.grep.kept == |Rows(cands, None, rowLimit)|
    requires (exists f <- s.grep.files :: f.key == key) || (exists x <- s.symbols :: x.0 == key)
    requires j < |cands| && AtMost(cands[j].key, key)
    ensures j < s.grep.kept
  {
    hide Less, WithMatches;
    StartsAtZero(cands);
    if f :| f in s.grep.files && f.key == key {
      var k := FromCandidates(cands, 0, s.grep.kept, f);
      NotBehind(cands, j, k);
    } else {
      var x :| 0 <= x < |s.symbols| && s.symbols[x].0 == key;
      var k := DefinitionIsOfRow(Rows(cands, None, rowLimit), hits, x);
      RowsAreCandidates(cands, None, rowLimit, k);
      NotBehind(cands, j, k);
    }
  }

  /** A definition that the trim of page 1 drops is shown by no page: the symbol leg does not run again. */
  lemma DroppedSymbolsNeverReturn(
    cands: seq<Candidate>, rowLimit: nat, maxContentBytes: nat, hits: FileCursor -> seq<SymbolHit>, served: seq<Served>,
    k: nat, hit: SymbolHit, i: nat)
    requires rowLimit > 0 && ProperCandidates(cands, maxContentBytes)
    requires IsServedTraversal(cands, rowLimit, maxContentBytes, hits, served) && i < |served|
    requires var s := served[0]; s.Keep().Some? && s.Keep().value <= k < |Entries(s)| && Definition(hit) in Entries(s)[k].matches
    requires IsServed(cands, rowLimit, maxContentBytes, hits, served[i])
    ensures !ShowsHit(Shown(served[i]), Entries(served[0])[k].key, hit)
  {
    hide Served.Keep;
    var key := Entries(served[0])[k].key;
    assert served[0] in served;
    CursorsAfterTheFirst(cands, rowLimit, maxContentBytes, hits, served, i);
    if i == 0 {
      ServedIsTrimmable(cands, rowLimit, maxContentBytes, hits, served[0]);
      hide Less, Listing, ContentOf;
      forall e | e in Shown(served[0])
        ensures e.key != key
      {
        var n :| 0 <= n < served[0].Keep().value && Entries(served[0])[n] == e;
        Total(e.key, key);
      }
    } else {
      ListingShowsHits(served[i].grep.files, [], key, hit);
      assert forall e <- Shown(served[i]) :: e in Entries(served[i]);
    }
  }

  lemma NotShownBehind(cands: seq<Candidate>, pages: seq<Page>, k: nat, i: nat, j: nat)
    requires Ordered(cands) && IsTraversal(cands, pages) && k <= i < |pages|
    requires Start(cands, pages[i]) + pages[i].consumed <= j < |cands| && cands[j].matches != []
    ensures !Shows(pages[k], cands[j].key)
  {
    PageShows(cands, pages, k, j);
    TraversalIsContiguous(cands, pages, k);
    TraversalIsContiguous(cands, pages, i);
    ConsumedOnlyGrows(pages, k + 1, i + 1);
    assert pages[k] in pages && SoundPage(cands, pages[k]);
    hide Resume, Shows, ConsumedBy, WithMatches, Ordered;
  }

  /**
   A response without files that is over the budget loses grep's cursor: it is the
   last of its traversal, and no page shows a candidate behind what it consumed.
   */
  lemma EmptyPageEndsTraversal(
    cands: seq<Candidate>, rowLimit: nat, maxContentBytes: nat, hits: FileCursor -> seq<SymbolHit>, served: seq<Served>,
    i: nat, j: nat)
    requires rowLimit > 0 && ProperCandidates(cands, maxContentBytes)
    requires IsServedTraversal(cands, rowLimit, maxContentBytes, hits, served) && i < |served|
    requires served[i].Keep() == Some(0)
    requires var p := served[i].grep; Start(cands, p) + p.consumed <= j < |cands| && cands[j].matches != []
    ensures i == |served| - 1
    ensures forall p <- SeenPages(cands, served) :: !Shows(p, cands[j].key)
  {
    var pages := SeenPages(cands, served);
    assert served[i] in served;
    assert Seen(cands, served[i]).nextCursor.None?;
    assert Seen(cands, served[i]).cursor == served[i].grep.cursor && Seen(cands, served[i]).consumed == served[i].grep.consumed;
    SeenPagesTraverse(cands, rowLimit, maxContentBytes, hits, served);
    hide Resume, WithMatches, Seen, IsServed, ProperCandidates, Shows, SoundPage, Ordered, ConsumedBy;
    forall p | p in pages
      ensures !Shows(p, cands[j].key)
    {
      var k :| 0 <= k < |pages| && pages[k] == p;
      NotShownBehind(cands, pages, k, i, j);
    }
  }

  // ------------------------------------------------------------------ an overtaken candidate

  function Three(m: LineMatch): (cands: seq<Candidate>)
    ensures |cands| == 3
  {
    [Candidate(FileCursor(1, "a", "s"), "x", [m]), Candidate(FileCursor(1, "b", "s"), "x", [m]),
     Candidate(FileCursor(1, "c", "s"), "x", [m])]
  }

  function Everywhere(hit: SymbolHit): FileCursor -> seq<SymbolHit> {
    (k: FileCursor) => [hit]
  }

  lemma ThreeInOrder(m: LineMatch)
    ensures ProperCandidates(Three(m), 100)
  {
    assert TextLess("a", "b") && TextLess("b", "c") && TextLess("a", "c");
  }

  /** Grep scans `a` and runs out of time when it comes to `b`. */
  function FirstOfThree(m: LineMatch): Page {
    Page(None, 1, 1, 1, [FileMatches(Three(m)[0].key, [m])], true, Some(Three(m)[0].key))
  }

  lemma FirstOfThreeIsServed(m: LineMatch)
    ensures ServesGrep(Three(m), 10, 100, FirstOfThree(m))
  {
    var cands, p := Three(m), FirstOfThree(m);
    var late, trips := (i: nat) => i >= 1, (i: nat) => false;
    var rows := Rows(cands, None, 10);
    assert rows == cands;
    assert rows[..1] == [cands[0]] && rows[..0] == [];
    assert WithMatches([cands[0]]) == p.files by {
      assert [cands[0]][..0] == [];
    }
    assert Admitted(rows, 100, late, 0);
    assert PageOutcome(rows, None, true, 10, 100, late, trips,
                       GrepResult(p.files, true, Some(MatchBudget), p.nextCursor), 1, 1);
    assert IsGrepPage(cands, 10, 100, late, trips, p);
  }

  lemma LegOfThree(m: LineMatch, hit: SymbolHit)
    ensures var cands := Three(m);
      SymbolLeg(cands, Everywhere(hit), 10) == [(cands[0].key, hit), (cands[1].key, hit), (cands[2].key, hit)]
  {
    var cands, hits := Three(m), Everywhere(hit);
    assert Rows(cands, None, 10) == cands;
    assert cands[..2][..1] == cands[..1] && cands[..1][..0] == [];
    assert Definitions(cands[..1], hits) == [(cands[0].key, hit)];
    assert Definitions(cands[..2], hits) == [(cands[0].key, hit), (cands[1].key, hit)];
    assert Definitions(cands, hits) == [(cands[0].key, hit), (cands[1].key, hit), (cands[2].key, hit)];
  }

  lemma ListingOfThree(m: LineMatch, hit: SymbolHit)
    ensures var cands := Three(m);
      var listing := Listing(FirstOfThree(m).files, SymbolLeg(cands, Everywhere(hit), 10));
      |listing| == 3 && listing[1].key == cands[1].key
  {
    var cands := Three(m);
    var a, b, c := cands[0].key, cands[1].key, cands[2].key;
    var symbols := SymbolLeg(cands, Everywhere(hit), 10);
    LegOfThree(m, hit);
    assert TextLess("a", "b") && TextLess("b", "c") && TextLess("a", "c");
    Total(a, b);
    Total(b, c);
    Total(a, c);
    hide SymbolLeg, Less, Three;
    var e, f := Entry(a, AsLines([m]) + [Definition(hit)]), Entry(b, [Definition(hit)]);
    var files := [FileMatches(a, [m])];
    assert symbols[..0] == [] && symbols[..1][..0] == [] && symbols[..2][..1] == symbols[..1];
    assert FromGrep(files) == [Entry(a, AsLines([m]))];
    assert Merge(files, symbols[..1]) == [e];
    assert [e][1..] == [] && [e, f][1..] == [f] && [f][1..] == [];
    assert Put([Entry(a, AsLines([m]))], a, hit) == [e];
    assert Put([e], b, hit) == [e] + Put([], b, hit) == [e, f];
    assert Merge(files, symbols[..2]) == Put(Merge(files, symbols[..1]), b, hit);
    assert Put([e, f], c, hit) == [e] + Put([f], c, hit) == [e, f, Entry(c, [Definition(hit)])];
    assert Merge(files, symbols) == Put(Merge(files, symbols[..2]), c, hit);
  }

  /** The response under the smallest budget a request can ask for: three files of 198 bytes, flagged by grep. */
  function TwoOfThree(m: LineMatch, hit: SymbolHit): Served {
    var wire := Wire(ResponseTrim.Envelope(400, true, Some(14), 100), ResponseTrim.Alike(3), 1024);
    Served(FirstOfThree(m), SymbolLeg(Three(m), Everywhere(hit), 10), false, wire)
  }

  /** The trim leaves two of them. */
  lemma TwoOfThreeKeeps(m: LineMatch, hit: SymbolHit)
    ensures TwoOfThree(m, hit).Keep() == Some(2)
  {
    var e, files := ResponseTrim.Envelope(400, true, Some(14), 100), ResponseTrim.Alike(3);
    ResponseTrim.AlikeLength(3);
    assert ResponseTrim.WireLength(e, files) == 1120;
    ResponseTrim.AlikeFitting(3, 2, 504);
    assert ResponseTrim.FirstTry(e, files, 1024) == 2;
    ResponseTrim.FlaggedKeepsFirstTry(e, files, 1024);
  }

  lemma TwoOfThreeIsServed(m: LineMatch, hit: SymbolHit)
    ensures IsServedTraversal(Three(m), 10, 100, Everywhere(hit), [TwoOfThree(m, hit)])
    ensures CutDown(TwoOfThree(m, hit)) && |Entries(TwoOfThree(m, hit))| == 3
    ensures Entries(TwoOfThree(m, hit))[1].key == Three(m)[1].key
  {
    hide ServesGrep, SymbolLeg, Listing, Everywhere, Seen;
    FirstOfThreeIsServed(m);
    ListingOfThree(m, hit);
    TwoOfThreeKeeps(m, hit);
  }

  /**
   Three files hold the text and define the symbol of a query for both. Grep runs out
   of time behind `a`; the symbol leg lists all three; the budget leaves two. The
   reader goes on behind `b`, whose line no page has shown.
   */
  lemma SymbolPastCursorLosesAMatch(m: LineMatch, hit: SymbolHit)
    ensures ProperCandidates(Three(m), 100)
    ensures var s := TwoOfThree(m, hit);
      && IsServedTraversal(Three(m), 10, 100, Everywhere(hit), [s])
      && Overtaken(Three(m), [s], 0, 1) && Skips(Three(m), Seen(Three(m), s), 1)
      && Seen(Three(m), s).nextCursor == Some(Three(m)[1].key)
  {
    var cands := Three(m);
    hide IsServedTraversal, ProperCandidates, Entries, Less, ContentOf, WithMatches, SymbolLeg, Everywhere, CutDown;
    ThreeInOrder(m);
    TwoOfThreeIsServed(m, hit);
    TwoOfThreeKeeps(m, hit);
    LegOfThree(m, hit);
    ProperIsOrdered(cands, 100);
    ResumeAtKey(cands, 1);
    StartsAtZero(cands);
    hide Resume, Ordered;
  }
}
