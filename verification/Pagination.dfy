module Pagination {
  // Page-by-page search (app/search/grep.py): the candidate page, its three caps,
  // the resume cursor, and what a traversal that follows the cursors has seen.

  import opened Wrappers
  import opened Cursors
  import opened Highlights
  import Utf8

  datatype Candidate = Candidate(key: FileCursor, content: string, matches: seq<LineMatch>)

  /** A candidate list as the compiled statement orders it; no key repeats. */
  predicate Ordered(cands: seq<Candidate>) {
    forall i, j | 0 <= i < j < |cands| :: Less(cands[i].key, cands[j].key)
  }

  /** The number of candidates at or before the resume cursor. */
  function Resume(cands: seq<Candidate>, cursor: Option<FileCursor>): (n: nat)
    ensures n <= |cands|
    decreases |cands|
  {
    if cands == [] || cursor.None? then 0
    else if AtMost(cands[0].key, cursor.value) then 1 + Resume(cands[1..], cursor)
    else 0
  }

  /** Seeking past a candidate's own key lands right behind it. */
  lemma {:induction false} ResumeAtKey(cands: seq<Candidate>, i: nat)
    requires Ordered(cands) && i < |cands|
    ensures Resume(cands, Some(cands[i].key)) == i + 1
    decreases |cands|
  {
    if i == 0 {
      if |cands| > 1 {
        Total(cands[0].key, cands[1].key);
      }
    } else {
      ResumeAtKey(cands[1..], i - 1);
    }
  }

  /** Seeking past any key splits the candidates into those at or before it and those after. */
  lemma {:induction false} ResumeSplits(cands: seq<Candidate>, key: FileCursor, i: nat)
    requires Ordered(cands) && i < |cands|
    ensures i < Resume(cands, Some(key)) <==> AtMost(cands[i].key, key)
    decreases |cands|
  {
    if AtMost(cands[0].key, key) {
      if i > 0 {
        ResumeSplits(cands[1..], key, i - 1);
      }
    } else if i > 0 {
      Total(cands[0].key, key);
      Transitive(key, cands[0].key, cands[i].key);
      Total(cands[i].key, key);
    }
  }

  datatype Reason = ByteCap | RowCap | MatchBudget

  datatype FileMatches = FileMatches(key: FileCursor, matches: seq<LineMatch>)

  datatype GrepResult = GrepResult(
    files: seq<FileMatches>,
    truncated: bool,
    reason: Option<Reason>,
    nextCursor: Option<FileCursor>)

  /** The files among these candidates that some pattern highlights. */
  function WithMatches(cands: seq<Candidate>): seq<FileMatches>
    decreases |cands|
  {
    if cands == [] then []
    else
      var n := |cands| - 1;
      WithMatches(cands[..n])
      + if cands[n].matches != [] then [FileMatches(cands[n].key, cands[n].matches)] else []
  }

  function Min(a: nat, b: nat): nat {
    if a < b then a else b
  }

  /** The rows the candidate statement returns: the next `rowLimit` after the cursor. */
  function Rows(cands: seq<Candidate>, cursor: Option<FileCursor>, rowLimit: nat): seq<Candidate> {
    var start := Resume(cands, cursor);
    cands[start..start + Min(rowLimit, |cands| - start)]
  }

  /** Row `i` is reached in time and stays within the byte cap. */
  predicate Admitted(rows: seq<Candidate>, maxContentBytes: nat, late: nat -> bool, i: nat)
    requires i < |rows|
  {
    !late(i) && Bytes(rows[..i]) + |rows[i].content| <= maxContentBytes
  }

  /** Why a page stopped where it did, what it reports and where it resumes. */
  predicate PageOutcome(
    rows: seq<Candidate>, cursor: Option<FileCursor>, paging: bool, rowLimit: nat, maxContentBytes: nat,
    late: nat -> bool, trips: nat -> bool, r: GrepResult, consumed: nat, kept: nat)
  {
    && consumed <= |rows| && kept <= consumed <= kept + 1
    && r.files == WithMatches(rows[..kept])
    && (forall i | 0 <= i < consumed :: Admitted(rows, maxContentBytes, late, i))
    && (forall i | 0 <= i < kept :: !trips(i))
    && (kept < consumed ==> trips(kept))
    && (r.reason == Some(MatchBudget) <==> kept < consumed || (consumed < |rows| && late(consumed)))
    && (r.reason == Some(ByteCap) <==> kept == consumed < |rows| && !late(consumed))
    && (r.reason == Some(ByteCap) ==> Bytes(rows[..consumed]) + |rows[consumed].content| > maxContentBytes)
    && (r.truncated <==> r.reason.Some?)
    && (r.reason == Some(RowCap) <==> !paging && |rows| == rowLimit && consumed == kept == rowLimit)
    && r.nextCursor ==
         if consumed == |rows| < rowLimit && kept == consumed then None
         else if consumed > 0 then Some(rows[consumed - 1].key)
         else if r.reason == Some(MatchBudget) then cursor
         else None
  }

  /**
   One page. `late(i)` tells whether the deadline has passed when row `i` is
   dequeued, `trips(i)` whether it passes while row `i` is scanned. `consumed`
   rows were scanned, and of these the first `kept` to the end.
   */
  method GrepPage(
    cands: seq<Candidate>, cursor: Option<FileCursor>, paging: bool, rowLimit: nat, maxContentBytes: nat,
    late: nat -> bool, trips: nat -> bool)
    returns (r: GrepResult, consumed: nat, kept: nat)
    requires rowLimit > 0
    ensures PageOutcome(Rows(cands, cursor, rowLimit), cursor, paging, rowLimit, maxContentBytes, late, trips, r, consumed, kept)
  {
    var rows := Rows(cands, cursor, rowLimit);
    var rowCapped := |rows| >= rowLimit;
    if rows == [] {
      return GrepResult([], false, None, None), 0, 0;
    }
    var files, byteCapped, budgetTripped;
    files, consumed, kept, byteCapped, budgetTripped := ScanRows(rows, maxContentBytes, late, trips);
    var legacyRowCapped := rowCapped && !paging;
    var truncated := byteCapped || budgetTripped || legacyRowCapped;
    var reason := if byteCapped then Some(ByteCap)
                  else if budgetTripped then Some(MatchBudget)
                  else if legacyRowCapped then Some(RowCap) else None;
    var lastCandidate := if consumed > 0 then Some(rows[consumed - 1].key) else None;
    var nextCursor :=
      if budgetTripped && lastCandidate.None? && cursor.Some? then cursor
      else if rowCapped || byteCapped || budgetTripped then lastCandidate else None;
    r := GrepResult(files, truncated, reason, nextCursor);
  }

  /** The content loop: one row at a time, until a cap or the deadline stops it. */
  method ScanRows(rows: seq<Candidate>, maxContentBytes: nat, late: nat -> bool, trips: nat -> bool)
    returns (files: seq<FileMatches>, consumed: nat, kept: nat, byteCapped: bool, budgetTripped: bool)
    ensures kept <= consumed <= |rows| && consumed <= kept + 1
    ensures files == WithMatches(rows[..kept])
    ensures !(byteCapped && budgetTripped)
    ensures forall i | 0 <= i < consumed :: Admitted(rows, maxContentBytes, late, i)
    ensures forall i | 0 <= i < kept :: !trips(i)
    ensures kept < consumed ==> trips(kept)
    ensures budgetTripped <==> kept < consumed || (consumed < |rows| && late(consumed))
    ensures byteCapped <==> kept == consumed < |rows| && !late(consumed)
    ensures byteCapped ==> Bytes(rows[..consumed]) + |rows[consumed].content| > maxContentBytes
  {
    hide Bytes;
    files, consumed, kept, byteCapped, budgetTripped := [], 0, 0, false, false;
    var running := 0;
    NoBytes(rows);
    while consumed < |rows|
      invariant kept == consumed <= |rows|
      invariant files == WithMatches(rows[..consumed])
      invariant running == Bytes(rows[..consumed])
      invariant forall i | 0 <= i < consumed :: Admitted(rows, maxContentBytes, late, i) && !trips(i)
    {
      var row := rows[consumed];
      if late(consumed) {
        budgetTripped := true;
        return;
      }
      if running + |row.content| > maxContentBytes {
        byteCapped := true;
        return;
      }
      BytesSnoc(rows, consumed);
      running := running + |Utf8.Encode(row.content)|;
      consumed := consumed + 1;
      if trips(consumed - 1) {
        budgetTripped := true;
        return;
      }
      assert rows[..consumed][..consumed - 1] == rows[..consumed - 1];
      if row.matches != [] {
        files := files + [FileMatches(row.key, row.matches)];
      }
      kept := consumed;
    }
  }

  lemma SameReason(a: Option<Reason>, b: Option<Reason>)
    requires a == Some(ByteCap) <==> b == Some(ByteCap)
    requires a == Some(RowCap) <==> b == Some(RowCap)
    requires a == Some(MatchBudget) <==> b == Some(MatchBudget)
    ensures a == b
  {
    assert a.Some? ==> a.value.ByteCap? || a.value.RowCap? || a.value.MatchBudget?;
    assert b.Some? ==> b.value.ByteCap? || b.value.RowCap? || b.value.MatchBudget?;
  }

  /** The rows, the caps and the clock determine the page. */
  lemma OutcomeIsUnique(
    rows: seq<Candidate>, cursor: Option<FileCursor>, paging: bool, rowLimit: nat, maxContentBytes: nat,
    late: nat -> bool, trips: nat -> bool, r: GrepResult, consumed: nat, kept: nat,
    r': GrepResult, consumed': nat, kept': nat)
    requires PageOutcome(rows, cursor, paging, rowLimit, maxContentBytes, late, trips, r, consumed, kept)
    requires PageOutcome(rows, cursor, paging, rowLimit, maxContentBytes, late, trips, r', consumed', kept')
    ensures r == r' && consumed == consumed' && kept == kept'
  {
    hide WithMatches, Bytes;
    assert kept < consumed' ==> Admitted(rows, maxContentBytes, late, kept);
    assert kept' < consumed ==> Admitted(rows, maxContentBytes, late, kept');
    assert kept < kept' ==> !trips(kept);
    assert kept' < kept ==> !trips(kept');
    SameReason(r.reason, r'.reason);
  }

  function Bytes(rows: seq<Candidate>): nat
    decreases |rows|
  {
    if rows == [] then 0 else Bytes(rows[..|rows| - 1]) + |Utf8.Encode(rows[|rows| - 1].content)|
  }

  lemma NoBytes(rows: seq<Candidate>)
    ensures Bytes(rows[..0]) == 0
  {
  }

  lemma BytesSnoc(rows: seq<Candidate>, i: nat)
    requires i < |rows|
    ensures Bytes(rows[..i + 1]) == Bytes(rows[..i]) + |Utf8.Encode(rows[i].content)|
  {
    assert rows[..i + 1][..i] == rows[..i];
  }

  /**
   The byte cap counts the characters of the row at hand, before it is encoded. It
   still trips only where the bytes exceed the cap, and a page exceeds it by no more
   than what encoding adds to its last row.
   */
  lemma ByteCapIsABound(
    rows: seq<Candidate>, cursor: Option<FileCursor>, paging: bool, rowLimit: nat, maxContentBytes: nat,
    late: nat -> bool, trips: nat -> bool, r: GrepResult, consumed: nat, kept: nat)
    requires PageOutcome(rows, cursor, paging, rowLimit, maxContentBytes, late, trips, r, consumed, kept)
    ensures r.reason == Some(ByteCap) ==> consumed < |rows| && Bytes(rows[..consumed + 1]) > maxContentBytes
    ensures consumed > 0 ==>
      var last := rows[consumed - 1].content;
      Bytes(rows[..consumed]) <= maxContentBytes + |Utf8.Encode(last)| - |last|
  {
    hide Bytes, WithMatches;
    if r.reason == Some(ByteCap) {
      BytesSnoc(rows, consumed);
      Utf8.EncodeNoShorter(rows[consumed].content);
    }
    if consumed > 0 {
      BytesSnoc(rows, consumed - 1);
      assert Admitted(rows, maxContentBytes, late, consumed - 1);
    }
  }

  // ------------------------------------------------------------------ traversals

  /**
   A page as its reader sees it. Of the `consumed` candidates that the next cursor
   lies behind, grep scanned the first `scanned`, and of these the first `kept` to
   the end; `kept < scanned` means that it gave up on one of them.
   */
  datatype Page = Page(
    cursor: Option<FileCursor>,
    kept: nat,
    scanned: nat,
    consumed: nat,
    files: seq<FileMatches>,
    truncated: bool,
    nextCursor: Option<FileCursor>)

  /**
   A page shows what it scanned to the end, resumes behind what it consumed, and
   ends without a cursor and unflagged only when no candidate is left.
   */
  predicate SoundPage(cands: seq<Candidate>, p: Page) {
    var start := Resume(cands, p.cursor);
    && p.kept <= p.scanned <= p.kept + 1 && p.scanned <= p.consumed && start + p.consumed <= |cands|
    && p.files == WithMatches(cands[start..start + p.kept])
    && (p.nextCursor.Some? ==> Resume(cands, p.nextCursor) == start + p.consumed)
    && (p.nextCursor.None? && !p.truncated ==> start + p.kept == |cands|)
  }

  /** No indexed file is as large as the byte cap of a request. */
  predicate WithinCap(cands: seq<Candidate>, maxContentBytes: nat) {
    forall c <- cands :: |c.content| <= maxContentBytes
  }

  /** A page that grep serves to a paginating caller, for some clock. */
  ghost predicate IsGrepPage(
    cands: seq<Candidate>, rowLimit: nat, maxContentBytes: nat, late: nat -> bool, trips: nat -> bool, p: Page)
  {
    && p.scanned == p.consumed
    && exists reason: Option<Reason> ::
         PageOutcome(Rows(cands, p.cursor, rowLimit), p.cursor, true, rowLimit, maxContentBytes, late, trips,
                     GrepResult(p.files, p.truncated, reason, p.nextCursor), p.consumed, p.kept)
  }

  /** Every page of a paginating caller is sound, whatever caps and deadlines do. */
  method ServePage(
    cands: seq<Candidate>, cursor: Option<FileCursor>, rowLimit: nat, maxContentBytes: nat,
    late: nat -> bool, trips: nat -> bool)
    returns (p: Page)
    requires rowLimit > 0 && Ordered(cands) && WithinCap(cands, maxContentBytes)
    ensures p.cursor == cursor && IsGrepPage(cands, rowLimit, maxContentBytes, late, trips, p)
    ensures SoundPage(cands, p)
    ensures p.consumed == 0 ==> Resume(cands, cursor) == |cands| || late(0)
    ensures p.kept < p.scanned ==> trips(p.kept) && p.truncated
    ensures !p.truncated ==> p.kept == |Rows(cands, cursor, rowLimit)|
  {
    var r, consumed, kept := GrepPage(cands, cursor, true, rowLimit, maxContentBytes, late, trips);
    p := Page(cursor, kept, consumed, consumed, r.files, r.truncated, r.nextCursor);
    assert r == GrepResult(p.files, p.truncated, r.reason, p.nextCursor);
    GrepPageIsSound(cands, rowLimit, maxContentBytes, late, trips, p);
  }

  lemma GrepPageIsSound(
    cands: seq<Candidate>, rowLimit: nat, maxContentBytes: nat, late: nat -> bool, trips: nat -> bool, p: Page)
    requires rowLimit > 0 && Ordered(cands) && WithinCap(cands, maxContentBytes)
    requires IsGrepPage(cands, rowLimit, maxContentBytes, late, trips, p)
    ensures SoundPage(cands, p)
    ensures p.consumed == 0 ==> Resume(cands, p.cursor) == |cands| || late(0)
    ensures p.kept < p.scanned ==> trips(p.kept) && p.truncated
    ensures !p.truncated ==> p.kept == |Rows(cands, p.cursor, rowLimit)|
  {
    hide Less, WithMatches, Bytes, Resume, Rows, PageOutcome, Ordered, WithinCap;
    var rows, start := Rows(cands, p.cursor, rowLimit), Resume(cands, p.cursor);
    var reason: Option<Reason> :|
      PageOutcome(rows, p.cursor, true, rowLimit, maxContentBytes, late, trips,
                  GrepResult(p.files, p.truncated, reason, p.nextCursor), p.consumed, p.kept);
    RowsAreCandidates(cands, p.cursor, rowLimit, 0);
    if rows != [] {
      FirstRowFits(cands, p.cursor, rowLimit, maxContentBytes);
    }
    OutcomeStops(rows, p.cursor, rowLimit, maxContentBytes, late, trips,
                 GrepResult(p.files, p.truncated, reason, p.nextCursor), p.consumed, p.kept);
    RowsAreCandidates(cands, p.cursor, rowLimit, p.kept);
    if p.consumed > 0 {
      RowsAreCandidates(cands, p.cursor, rowLimit, p.consumed - 1);
      ResumeAtKey(cands, start + p.consumed - 1);
    }
  }

  /** Where a page of a paginating caller stops when its first row fits the byte cap. */
  lemma OutcomeStops(
    rows: seq<Candidate>, cursor: Option<FileCursor>, rowLimit: nat, maxContentBytes: nat,
    late: nat -> bool, trips: nat -> bool, r: GrepResult, consumed: nat, kept: nat)
    requires rowLimit > 0 && |rows| <= rowLimit
    requires rows != [] ==> Bytes(rows[..0]) + |rows[0].content| <= maxContentBytes
    requires PageOutcome(rows, cursor, true, rowLimit, maxContentBytes, late, trips, r, consumed, kept)
    ensures kept <= consumed <= kept + 1 && consumed <= |rows| && r.files == WithMatches(rows[..kept])
    ensures kept < consumed ==> trips(kept) && r.truncated
    ensures !r.truncated ==> kept == |rows|
    ensures r.nextCursor.Some? && consumed > 0 ==> r.nextCursor == Some(rows[consumed - 1].key)
    ensures r.nextCursor.Some? && consumed == 0 ==> r.nextCursor == cursor
    ensures r.nextCursor.None? && !r.truncated ==> consumed == kept == |rows| < rowLimit
    ensures consumed == 0 ==> rows == [] || late(0)
  {
    hide WithMatches, Bytes;
  }

  lemma RowsAreCandidates(cands: seq<Candidate>, cursor: Option<FileCursor>, rowLimit: nat, i: nat)
    requires i <= |Rows(cands, cursor, rowLimit)|
    ensures Resume(cands, cursor) + |Rows(cands, cursor, rowLimit)| <= |cands|
    ensures |Rows(cands, cursor, rowLimit)| < rowLimit ==> Resume(cands, cursor) + |Rows(cands, cursor, rowLimit)| == |cands|
    ensures |Rows(cands, cursor, rowLimit)| <= rowLimit
    ensures Rows(cands, cursor, rowLimit)[..i] == cands[Resume(cands, cursor)..Resume(cands, cursor) + i]
    ensures i < |Rows(cands, cursor, rowLimit)| ==> Rows(cands, cursor, rowLimit)[i] == cands[Resume(cands, cursor) + i]
  {
  }

  lemma FirstRowFits(cands: seq<Candidate>, cursor: Option<FileCursor>, rowLimit: nat, maxContentBytes: nat)
    requires WithinCap(cands, maxContentBytes) && Rows(cands, cursor, rowLimit) != []
    ensures Bytes(Rows(cands, cursor, rowLimit)[..0]) + |Rows(cands, cursor, rowLimit)[0].content| <= maxContentBytes
  {
    assert Rows(cands, cursor, rowLimit)[0] in cands;
  }

  /** Pages whose cursors are followed from the first. */
  predicate IsTraversal(cands: seq<Candidate>, pages: seq<Page>) {
    && pages != [] && pages[0].cursor == None
    && (forall p <- pages :: SoundPage(cands, p))
    && forall i | 0 <= i < |pages| - 1 :: pages[i].nextCursor.Some? && pages[i + 1].cursor == pages[i].nextCursor
  }

  function Start(cands: seq<Candidate>, p: Page): nat {
    Resume(cands, p.cursor)
  }

  function ConsumedBy(pages: seq<Page>): nat
    decreases |pages|
  {
    if pages == [] then 0 else ConsumedBy(pages[..|pages| - 1]) + pages[|pages| - 1].consumed
  }

  /** Each page starts where the pages before it stopped: no gap, no repeat. */
  lemma {:induction false} TraversalIsContiguous(cands: seq<Candidate>, pages: seq<Page>, i: nat)
    requires IsTraversal(cands, pages) && i < |pages|
    ensures Start(cands, pages[i]) == ConsumedBy(pages[..i])
    ensures ConsumedBy(pages[..i + 1]) == Start(cands, pages[i]) + pages[i].consumed
  {
    assert pages[..i + 1][..i] == pages[..i];
    assert pages[i] in pages;
    if i > 0 {
      TraversalIsContiguous(cands, pages, i - 1);
      assert pages[i - 1] in pages && pages[i].cursor == pages[i - 1].nextCursor;
    }
  }

  /** A traversal that ends without a cursor and without a truncation consumed every candidate. */
  lemma EndMeansExhausted(cands: seq<Candidate>, pages: seq<Page>)
    requires IsTraversal(cands, pages)
    requires pages[|pages| - 1].nextCursor == None && !pages[|pages| - 1].truncated
    ensures ConsumedBy(pages) == |cands|
  {
    var n := |pages| - 1;
    TraversalIsContiguous(cands, pages, n);
    assert pages[n] in pages;
    assert pages[..n + 1] == pages;
  }

  predicate Shows(p: Page, key: FileCursor) {
    exists f <- p.files :: f.key == key
  }

  predicate Consumes(cands: seq<Candidate>, p: Page, j: nat) {
    Start(cands, p) <= j < Start(cands, p) + p.consumed
  }

  lemma {:induction false} WithMatchesShows(cands: seq<Candidate>, lo: nat, hi: nat, j: nat)
    requires Ordered(cands) && lo <= hi <= |cands| && j < |cands|
    ensures (exists f <- WithMatches(cands[lo..hi]) :: f.key == cands[j].key)
      <==> lo <= j < hi && cands[j].matches != []
    ensures lo <= j < hi && cands[j].matches != [] ==>
      FileMatches(cands[j].key, cands[j].matches) in WithMatches(cands[lo..hi])
    decreases hi - lo
  {
    if lo < hi {
      var n := hi - 1;
      assert cands[lo..hi][..n - lo] == cands[lo..n] && cands[lo..hi][n - lo] == cands[n];
      WithMatchesShows(cands, lo, n, j);
      Total(cands[j].key, cands[n].key);
      if j == n && cands[j].matches != [] {
        assert FileMatches(cands[n].key, cands[n].matches) in WithMatches(cands[lo..hi]);
      }
    }
  }

  lemma {:induction false} Owner(cands: seq<Candidate>, pages: seq<Page>, j: nat, n: nat) returns (i: nat)
    requires IsTraversal(cands, pages) && n <= |pages| && j < ConsumedBy(pages[..n])
    ensures i < n && Consumes(cands, pages[i], j)
  {
    TraversalIsContiguous(cands, pages, n - 1);
    if Consumes(cands, pages[n - 1], j) {
      i := n - 1;
    } else {
      i := Owner(cands, pages, j, n - 1);
    }
  }

  lemma {:induction false} ConsumedOnlyGrows(pages: seq<Page>, i: nat, k: nat)
    requires i <= k <= |pages|
    ensures ConsumedBy(pages[..i]) <= ConsumedBy(pages[..k])
    decreases k - i
  {
    if i < k {
      assert pages[..k][..k - 1] == pages[..k - 1];
      ConsumedOnlyGrows(pages, i, k - 1);
    }
  }

  lemma OwnersAreUnique(cands: seq<Candidate>, pages: seq<Page>, j: nat, i: nat, k: nat)
    requires IsTraversal(cands, pages) && i < k < |pages|
    ensures !(Consumes(cands, pages[i], j) && Consumes(cands, pages[k], j))
  {
    TraversalIsContiguous(cands, pages, i);
    TraversalIsContiguous(cands, pages, k);
    ConsumedOnlyGrows(pages, i + 1, k);
  }

  /** Did the scan of candidate `j` run out of match budget? */
  predicate GivesUp(cands: seq<Candidate>, p: Page, j: nat) {
    p.kept < p.scanned && j == Start(cands, p) + p.kept
  }

  /** Does the page resume behind candidate `j`, which has matches, without having scanned it? */
  predicate Skips(cands: seq<Candidate>, p: Page, j: nat)
    requires j < |cands|
  {
    cands[j].matches != [] && Start(cands, p) + p.scanned <= j < Start(cands, p) + p.consumed
  }

  /**
   Page `i` is the one that consumes candidate `j`. It shows all the candidate's
   matches, unless it gave up on this candidate or skipped it; and no other page
   consumes or shows it.
   */
  predicate OnlyPage(cands: seq<Candidate>, pages: seq<Page>, j: nat, i: nat)
    requires j < |cands| && i < |pages|
  {
    && Consumes(cands, pages[i], j)
    && (Shows(pages[i], cands[j].key) <==> !GivesUp(cands, pages[i], j) && !Skips(cands, pages[i], j))
    && (Shows(pages[i], cands[j].key) ==> FileMatches(cands[j].key, cands[j].matches) in pages[i].files)
    && forall k | 0 <= k < |pages| && k != i :: !Consumes(cands, pages[k], j) && !Shows(pages[k], cands[j].key)
  }

  /** Every consumed candidate with matches belongs to exactly one page. */
  lemma EachMatchShownOnce(cands: seq<Candidate>, pages: seq<Page>, j: nat)
    requires Ordered(cands) && IsTraversal(cands, pages) && j < ConsumedBy(pages) && j < |cands|
    requires cands[j].matches != []
    ensures exists i | 0 <= i < |pages| :: OnlyPage(cands, pages, j, i)
  {
    assert pages[..|pages|] == pages;
    var i := Owner(cands, pages, j, |pages|);
    PageShows(cands, pages, i, j);
    assert pages[i] in pages && SoundPage(cands, pages[i]);
    forall k | 0 <= k < |pages| && k != i
      ensures !Consumes(cands, pages[k], j) && !Shows(pages[k], cands[j].key)
    {
      PageShows(cands, pages, k, j);
      if k < i {
        OwnersAreUnique(cands, pages, j, k, i);
      } else {
        OwnersAreUnique(cands, pages, j, i, k);
      }
    }
    assert OnlyPage(cands, pages, j, i);
  }

  lemma PageShows(cands: seq<Candidate>, pages: seq<Page>, k: nat, j: nat)
    requires Ordered(cands) && IsTraversal(cands, pages) && k < |pages| && j < |cands|
    requires cands[j].matches != []
    ensures Shows(pages[k], cands[j].key) <==>
      Consumes(cands, pages[k], j) && j < Start(cands, pages[k]) + pages[k].kept
    ensures Shows(pages[k], cands[j].key) ==> FileMatches(cands[j].key, cands[j].matches) in pages[k].files
  {
    assert pages[k] in pages;
    var start := Start(cands, pages[k]);
    WithMatchesShows(cands, start, start + pages[k].kept, j);
  }
}
