/** Byte budgets of list responses (app/main.py): how many items of a list stay. */
module ResponseTrim {
  import opened Wrappers
  import opened JsonText

  // ------------------------------------------------------------------ items that fit

  function ListCost(costs: seq<nat>): nat
    decreases |costs|
  {
    if costs == [] then 0 else ListCost(costs[..|costs| - 1]) + costs[|costs| - 1] + 2
  }

  lemma {:induction false} ListCostGrows(costs: seq<nat>, i: nat, j: nat)
    requires i <= j <= |costs|
    ensures ListCost(costs[..i]) + 2 * (j - i) <= ListCost(costs[..j])
    decreases j - i
  {
    if i < j {
      ListCostGrows(costs, i, j - 1);
      assert costs[..j][..j - 1] == costs[..j - 1];
    }
  }

  /** How many leading items fit, two bytes of separator each. */
  function Fitting(costs: seq<nat>, budget: nat): (keep: nat)
    ensures keep <= |costs| && ListCost(costs[..keep]) <= budget
    ensures forall k | keep < k <= |costs| :: ListCost(costs[..k]) > budget
    decreases |costs|
  {
    assert costs[..|costs|] == costs;
    if ListCost(costs) <= budget then |costs|
    else
      var n := |costs| - 1;
      assert forall k | 0 <= k <= n :: costs[..n][..k] == costs[..k];
      Fitting(costs[..n], budget)
  }

  method FitList(costs: seq<nat>, budget: nat) returns (keep: nat)
    ensures keep == Fitting(costs, budget)
  {
    var used := 0;
    for i := 0 to |costs|
      invariant used == ListCost(costs[..i]) && used <= budget
    {
      assert costs[..i + 1][..i] == costs[..i];
      if used + costs[i] + 2 > budget {
        var fit := Fitting(costs, budget);
        ListCostGrows(costs, i + 1, if fit > i then fit else i + 1);
        return i;
      }
      used := used + costs[i] + 2;
    }
    return |costs|;
  }

  /** What the items may cost: the budget without everything `measured` holds beside them. */
  function Allowance(costs: seq<nat>, measured: nat, budget: nat): nat {
    var overhead := measured - ListCost(costs);
    if budget > overhead then budget - overhead else 0
  }

  /** Halving until the response fits, but not below `floor`. */
  function Halved(bodyLength: nat -> nat, keep: nat, budget: nat, floor: nat): (r: nat)
    requires floor <= 1 && floor <= keep
    ensures floor <= r <= keep
    ensures r == floor || bodyLength(r) <= budget
    ensures r == keep || (bodyLength(keep) > budget && r <= keep / 2)
  {
    if keep > floor && bodyLength(keep) > budget then Halved(bodyLength, keep / 2, budget, floor) else keep
  }

  /**
   The trim of the tools that have no cursor: the tail goes, if need be all of it,
   and what is left fits unless nothing is left.
   */
  method TrimTail(costs: seq<nat>, measured: nat, bodyLength: nat -> nat, budget: nat) returns (keep: nat)
    ensures keep == Halved(bodyLength, Fitting(costs, Allowance(costs, measured, budget)), budget, 0)
    ensures keep <= |costs| && (keep == 0 || bodyLength(keep) <= budget)
  {
    if costs == [] {
      return 0;
    }
    var overhead := measured - ListCost(costs);
    keep := FitList(costs, if budget > overhead then budget - overhead else 0);
    ghost var start := keep;
    while keep > 0 && bodyLength(keep) > budget
      invariant keep <= |costs|
      invariant Halved(bodyLength, start, budget, 0) == Halved(bodyLength, keep, budget, 0)
      decreases keep
    {
      keep := keep / 2;
    }
  }

  // ------------------------------------------------------------------ the search response

  /** A file of a search response: the length of its JSON, and how many matches it counts. */
  datatype Listed = Listed(cost: nat, spans: nat)

  /**
   A search response without its files: `fixed` is the length of all that trimming
   leaves alone, `reason` and `cursor` are the lengths of the truncation reason, if
   there is one, and of the cursor's JSON.
   */
  datatype Envelope = Envelope(fixed: nat, truncated: bool, reason: Option<nat>, cursor: nat)

  const TOKEN_BUDGET: nat := 14  // the reason in quotes
  const NULL: nat := 4

  function Costs(files: seq<Listed>): (costs: seq<nat>)
    ensures |costs| == |files|
  {
    seq(|files|, i requires 0 <= i < |files| => files[i].cost)
  }

  function Spans(files: seq<Listed>): nat
    decreases |files|
  {
    if files == [] then 0 else Spans(files[..|files| - 1]) + files[|files| - 1].spans
  }

  /** What a response holds beside its files: also the two counts change their width. */
  function Overhead(e: Envelope, fileCount: nat, matchCount: nat): nat {
    e.fixed + Digits(fileCount) + Digits(matchCount)
    + (if e.truncated then 4 else 5) + (if e.reason.Some? then e.reason.value else NULL) + e.cursor
  }

  /** The length of the wire response. With an item, the brackets of the list are the last separator's two bytes. */
  function WireLength(e: Envelope, files: seq<Listed>): nat {
    Overhead(e, |files|, Spans(files)) + (if files == [] then 2 else ListCost(Costs(files)))
  }

  /** The truncation flagged; a reason that is there stays. */
  function Flagged(e: Envelope): Envelope {
    e.(truncated := true, reason := Some(if e.reason.Some? then e.reason.value else TOKEN_BUDGET))
  }

  /** The length of the response with its first `k` files, before the new cursor is attached. */
  function BodyLength(e: Envelope, files: seq<Listed>): nat -> nat {
    (k: nat) => if k <= |files| then WireLength(Flagged(e), files[..k]) else 0
  }

  /** The number of files the trim tries first: the list that fits beside what was measured, or one. */
  function FirstTry(e: Envelope, files: seq<Listed>, budget: nat): (keep: nat)
    requires files != []
    ensures 1 <= keep <= |files|
  {
    var fit := Fitting(Costs(files), Allowance(Costs(files), WireLength(e, files), budget));
    if fit == 0 then 1 else fit
  }

  function Keep(e: Envelope, files: seq<Listed>, budget: nat): (keep: nat)
    requires files != []
    ensures 1 <= keep <= |files|
  {
    Halved(BodyLength(e, files), FirstTry(e, files, budget), budget, 1)
  }

  method TryFirst(e: Envelope, files: seq<Listed>, budget: nat) returns (keep: nat)
    requires files != []
    ensures 1 <= keep <= |files| && Keep(e, files, budget) == Halved(BodyLength(e, files), keep, budget, 1)
  {
    var costs := Costs(files);
    var overhead := WireLength(e, files) - ListCost(costs);
    keep := FitList(costs, if budget > overhead then budget - overhead else 0);
    hide WireLength, ListCost, Fitting, Halved, Flagged, BodyLength, Costs;
    if keep == 0 {
      keep := 1;
    }
    assert keep == FirstTry(e, files, budget);
  }

  lemma HalvedStep(e: Envelope, files: seq<Listed>, keep: nat, budget: nat)
    requires 1 < keep <= |files| && WireLength(Flagged(e), files[..keep]) > budget
    ensures Halved(BodyLength(e, files), keep, budget, 1) == Halved(BodyLength(e, files), keep / 2, budget, 1)
  {
    hide WireLength, Flagged;
  }

  lemma HalvedStays(e: Envelope, files: seq<Listed>, keep: nat, budget: nat)
    requires 1 <= keep <= |files| && (keep > 1 ==> WireLength(Flagged(e), files[..keep]) <= budget)
    ensures Halved(BodyLength(e, files), keep, budget, 1) == keep
  {
    hide WireLength, Flagged;
  }

  /**
   The search trim: how many files stay, and the length of what is sent once the
   cursor of the last of them is attached, `cursorLength` being that of each file's
   cursor. A response without files is only flagged, and loses its cursor.
   */
  method TrimSearch(e: Envelope, files: seq<Listed>, cursorLength: nat -> nat, budget: nat)
    returns (keep: nat, sent: nat)
    ensures files == [] ==> keep == 0 && sent == WireLength(Flagged(e).(cursor := NULL), [])
    ensures files != [] ==> keep == Keep(e, files, budget)
    ensures files != [] ==> sent == WireLength(Flagged(e).(cursor := cursorLength(keep - 1)), files[..keep])
  {
    if files == [] {
      return 0, WireLength(Flagged(e).(cursor := NULL), []);
    }
    hide *;
    keep := TryFirst(e, files, budget);
    while keep > 1 && WireLength(Flagged(e), files[..keep]) > budget
      invariant 1 <= keep <= |files|
      invariant Keep(e, files, budget) == Halved(BodyLength(e, files), keep, budget, 1)
      decreases keep
    {
      HalvedStep(e, files, keep, budget);
      keep := if keep / 2 > 1 then keep / 2 else 1;
    }
    HalvedStays(e, files, keep, budget);
    sent := WireLength(Flagged(e).(cursor := cursorLength(keep - 1)), files[..keep]);
  }

  // ------------------------------------------------------------------ what the trim keeps

  lemma {:induction false} SpansGrow(files: seq<Listed>, i: nat, j: nat)
    requires i <= j <= |files|
    ensures Spans(files[..i]) <= Spans(files[..j])
    decreases j - i
  {
    if i < j {
      SpansGrow(files, i, j - 1);
      assert files[..j][..j - 1] == files[..j - 1];
    }
  }

  /** One more file makes any response longer. */
  lemma LengthGrows(e: Envelope, files: seq<Listed>, i: nat, j: nat)
    requires 0 < i < j <= |files|
    ensures BodyLength(e, files)(i) < BodyLength(e, files)(j)
  {
    hide Spans, ListCost, Digits;
    SpansGrow(files, i, j);
    DigitsGrow(i, j);
    DigitsGrow(Spans(files[..i]), Spans(files[..j]));
    ListCostGrows(Costs(files), i, j);
    assert Costs(files)[..i] == Costs(files[..i]) && Costs(files)[..j] == Costs(files[..j]);
  }

  /** By how much flagging the truncation lengthens a response: by nothing if it was flagged. */
  function Growth(e: Envelope): int {
    (if e.truncated then 0 else -1) + if e.reason.Some? then 0 else TOKEN_BUDGET - NULL
  }

  /** By how much the two counts get shorter when only `k` files stay. */
  function Shrink(files: seq<Listed>, k: nat): (n: nat)
    requires k <= |files|
  {
    DigitsGrow(k, |files|);
    SpansGrow(files, k, |files|);
    assert files[..|files|] == files;
    DigitsGrow(Spans(files[..k]), Spans(files));
    Digits(|files|) - Digits(k) + Digits(Spans(files)) - Digits(Spans(files[..k]))
  }

  /** The first try is measured with the old flags and counts; this is what that misses. */
  lemma BodyIs(e: Envelope, files: seq<Listed>, k: nat)
    requires 0 < k <= |files|
    ensures BodyLength(e, files)(k)
         == WireLength(e, files) - ListCost(Costs(files)) + ListCost(Costs(files)[..k]) + Growth(e) - Shrink(files, k)
  {
    hide Spans, ListCost, Digits;
    assert Costs(files)[..k] == Costs(files[..k]);
  }

  /** More than `keep` files do not fit. */
  predicate KeepsMost(e: Envelope, files: seq<Listed>, budget: nat, keep: nat) {
    forall k | keep < k <= |files| :: BodyLength(e, files)(k) > budget
  }

  /**
   The first try stands exactly when it is one file or its growth minus its shrink
   still fits; else at least half of it goes.
   */
  lemma FirstTryStandsExactlyWhen(e: Envelope, files: seq<Listed>, budget: nat)
    requires files != []
    ensures var first, keep := FirstTry(e, files, budget), Keep(e, files, budget);
      var rest := budget - (WireLength(e, files) - ListCost(Costs(files)));
      && (keep == first <==> first == 1 || ListCost(Costs(files)[..first]) + Growth(e) - Shrink(files, first) <= rest)
      && (keep != first ==> keep <= first / 2)
  {
    var first := FirstTry(e, files, budget);
    BodyIs(e, files, first);
    hide WireLength, BodyLength, ListCost, Costs, Fitting, Shrink, Growth, FirstTry;
  }

  /** The JSON of a file, with its keys and quotes. */
  predicate AreEntries(files: seq<Listed>) {
    forall f <- files :: f.cost >= 8
  }

  /** One file is longer than all that flagging adds: with one file less, the first try fits. */
  lemma OneLessFits(e: Envelope, files: seq<Listed>, budget: nat)
    requires files != [] && AreEntries(files) && FirstTry(e, files, budget) > 1
    ensures BodyLength(e, files)(FirstTry(e, files, budget) - 1) <= budget
  {
    var first, costs := FirstTry(e, files, budget), Costs(files);
    BodyIs(e, files, first - 1);
    assert files[first - 1].cost >= 8;
    assert costs[..first][..first - 1] == costs[..first - 1] && costs[..first][first - 1] == files[first - 1].cost;
    assert ListCost(costs[..first]) == ListCost(costs[..first - 1]) + files[first - 1].cost + 2;
    hide WireLength, BodyLength, ListCost, Costs, Shrink;
  }

  /** Nothing beyond `keep` fits exactly when the next file does not. */
  lemma NextDecides(e: Envelope, files: seq<Listed>, budget: nat, keep: nat)
    requires 0 < keep <= |files|
    ensures KeepsMost(e, files, budget, keep) <==> keep == |files| || BodyLength(e, files)(keep + 1) > budget
  {
    hide BodyLength;
    if keep < |files| && BodyLength(e, files)(keep + 1) > budget {
      forall k | keep < k <= |files|
        ensures BodyLength(e, files)(k) > budget
      {
        if keep + 1 < k {
          LengthGrows(e, files, keep + 1, k);
        }
      }
    }
  }

  lemma HalvedOrNot(e: Envelope, files: seq<Listed>, budget: nat)
    requires files != []
    ensures var first, keep := FirstTry(e, files, budget), Keep(e, files, budget);
      if first == 1 || BodyLength(e, files)(first) <= budget then keep == first else 1 <= keep <= first / 2
  {
    hide BodyLength, FirstTry;
  }

  /**
   The trim keeps the most files it can exactly when its first try stands and one
   file more would not fit, or when it fails with two files. A first try of three or
   more that fails gives up files that fit.
   */
  lemma TrimKeepsMostExactlyWhen(e: Envelope, files: seq<Listed>, budget: nat)
    requires files != [] && AreEntries(files)
    ensures var first := FirstTry(e, files, budget);
      KeepsMost(e, files, budget, Keep(e, files, budget)) <==>
        if first == 1 || BodyLength(e, files)(first) <= budget
        then first == |files| || BodyLength(e, files)(first + 1) > budget
        else first == 2
  {
    hide *;
    var first, keep := FirstTry(e, files, budget), Keep(e, files, budget);
    HalvedOrNot(e, files, budget);
    NextDecides(e, files, budget, keep);
    if first > 2 && BodyLength(e, files)(first) > budget {
      OneLessFits(e, files, budget);
      if keep + 1 < first - 1 {
        LengthGrows(e, files, keep + 1, first - 1);
      }
    }
  }

  /** Where the counts shrink by no more than the flags grow, nothing beyond the first try fits. */
  lemma NoneBeyondFirstTry(e: Envelope, files: seq<Listed>, budget: nat, k: nat)
    requires FirstTryBelow(e, files, budget, k) && Shrink(files, k) <= Growth(e)
    ensures BodyLength(e, files)(k) > budget
  {
    hide Shrink, Growth, Digits, Spans, ListCost, Costs;
    BodyIs(e, files, k);
    hide BodyLength, WireLength;
  }

  predicate FirstTryBelow(e: Envelope, files: seq<Listed>, budget: nat, k: nat) {
    files != [] && FirstTry(e, files, budget) < k <= |files|
  }

  /** A response that was flagged before keeps its first try. */
  lemma FlaggedKeepsFirstTry(e: Envelope, files: seq<Listed>, budget: nat)
    requires files != [] && e == Flagged(e)
    ensures Keep(e, files, budget) == FirstTry(e, files, budget)
  {
    FirstTryStandsExactlyWhen(e, files, budget);
    hide Shrink, BodyLength, Halved, Digits, Spans, ListCost, WireLength, Costs;
    assert Growth(e) == 0;
  }

  // ------------------------------------------------------------------ instances

  /** `n` files of 198 bytes and one match each. */
  function Alike(n: nat): (files: seq<Listed>)
    ensures |files| == n
  {
    seq(n, _ => Listed(198, 1))
  }

  lemma {:induction false} AlikeLength(n: nat)
    ensures Spans(Alike(n)) == n && ListCost(Costs(Alike(n))) == 200 * n
    decreases n
  {
    if n > 0 {
      AlikeLength(n - 1);
      assert Alike(n)[..n - 1] == Alike(n - 1);
      assert Costs(Alike(n))[..n - 1] == Costs(Alike(n - 1));
    }
  }

  lemma AlikeFitting(n: nat, k: nat, budget: nat)
    requires k <= n && 200 * k <= budget < 200 * (k + 1)
    ensures Fitting(Costs(Alike(n)), budget) == k
  {
    hide *;
    var fit := Fitting(Costs(Alike(n)), budget);
    PrefixCost(n, fit);
    PrefixCost(n, k);
  }

  lemma PrefixCost(n: nat, k: nat)
    requires k <= n
    ensures ListCost(Costs(Alike(n))[..k]) == 200 * k
  {
    assert Costs(Alike(n))[..k] == Costs(Alike(k));
    AlikeLength(k);
  }

  /**
   An unflagged response of five files under the smallest budget a request can ask
   for: the flags are nine bytes, so of the three files of the first try one stays,
   although two would have fitted.
   */
  lemma TrimGivesUpFittingFiles()
    ensures var e, files := Envelope(401, false, None, NULL), Alike(5);
      && WireLength(e, files) > 1024
      && FirstTry(e, files, 1024) == 3 && Keep(e, files, 1024) == 1
      && BodyLength(e, files)(2) <= 1024 && !KeepsMost(e, files, 1024, 1)
  {
    hide ListCost, Spans, Fitting;
    var e, files := Envelope(401, false, None, NULL), Alike(5);
    AlikeLength(5);
    AlikeFitting(5, 3, 608);
    assert files[..2] == Alike(2) && files[..3] == Alike(3);
    AlikeLength(2);
    AlikeLength(3);
    assert BodyLength(e, files)(3) == 1025;
    assert BodyLength(e, files)(2) == 825;
  }

  /**
   A response of eleven files that grep had flagged: nine files make both counts one
   digit long, so nine fit where the first try of eight was measured with two digits.
   */
  lemma FlaggedKeepsTooFew()
    ensures var e, files := Envelope(400, true, Some(14), NULL), Alike(11);
      && e == Flagged(e)
      && Keep(e, files, 2225) == 8
      && BodyLength(e, files)(9) <= 2225 && !KeepsMost(e, files, 2225, 8)
  {
    hide ListCost, Spans, Fitting;
    var e, files := Envelope(400, true, Some(14), NULL), Alike(11);
    AlikeLength(11);
    assert Digits(11) == 2;
    assert WireLength(e, files) == 426 + 2200;
    AlikeFitting(11, 8, 1799);
    assert files[..8] == Alike(8) && files[..9] == Alike(9);
    AlikeLength(8);
    AlikeLength(9);
    assert BodyLength(e, files)(8) == 2024;
    assert BodyLength(e, files)(9) == 2224;
  }

  // ------------------------------------------------------------------ the cursor, attached last

  /**
   What is sent fits exactly when the measured body fits with the growth of the
   cursor. So a response of more than one file exceeds the budget by less than the
   new cursor is longer than the old one, and only if it is longer.
   */
  lemma SentFitsExactlyWhen(e: Envelope, files: seq<Listed>, cursor: nat, budget: nat)
    requires files != []
    ensures var keep := Keep(e, files, budget);
      var sent := WireLength(Flagged(e).(cursor := cursor), files[..keep]);
      && (sent <= budget <==> BodyLength(e, files)(keep) + cursor - e.cursor <= budget)
      && (keep > 1 && cursor <= e.cursor ==> sent <= budget)
      && (keep > 1 ==> sent <= budget + cursor - e.cursor)
  {
    hide Spans, ListCost, Digits, FirstTry, Fitting;
  }

  /** Two files fill the budget to the byte, and a cursor of 124 bytes takes the place of null. */
  lemma CursorExceedsBudget()
    ensures var e, files := Envelope(600, false, None, NULL), Alike(3);
      && Keep(e, files, 1024) == 2
      && WireLength(Flagged(e).(cursor := 124), files[..2]) == 1024 + 120
  {
    hide ListCost, Spans, Fitting;
    var e, files := Envelope(600, false, None, NULL), Alike(3);
    AlikeLength(3);
    AlikeFitting(3, 2, 409);
    assert files[..2] == Alike(2);
    AlikeLength(2);
  }
}
