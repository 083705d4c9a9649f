module ExtractStream {
  // The pull-driven batcher of the shared extraction pool (indexer/extract_pool.py):
  // bounded look-ahead, batches of qualifying files, local answers in between, and
  // an output that keeps source order.

  import opened Wrappers
  import opened Languages

  const MAX_BATCH_FILES: nat := 2000

  type Extractor = ParsedFile -> FileExtraction

  /** The extractor answers a file it need not parse with nothing, as the local answer does. */
  ghost predicate ShortCircuits(extract: Extractor) {
    forall pf: ParsedFile :: !NeedsParse(pf) ==> extract(pf) == NO_EXTRACTION
  }

  /** The plain in-order map, which is also the path without a pool. */
  function Expected(files: seq<ParsedFile>, extract: Extractor): (r: seq<(ParsedFile, FileExtraction)>)
    ensures |r| == |files|
  {
    seq(|files|, i requires 0 <= i < |files| => (files[i], extract(files[i])))
  }

  /** What a worker returns for a batch: the same extractor on every file, in order. */
  function ExtractBatch(batch: seq<ParsedFile>, extract: Extractor): (r: seq<FileExtraction>)
    ensures |r| == |batch|
  {
    seq(|batch|, i requires 0 <= i < |batch| => extract(batch[i]))
  }

  function Qualifying(files: seq<ParsedFile>): seq<ParsedFile>
    decreases |files|
  {
    if files == [] then []
    else
      var n := |files| - 1;
      Qualifying(files[..n]) + if NeedsParse(files[n]) then [files[n]] else []
  }

  function Flat(batches: seq<seq<ParsedFile>>): seq<ParsedFile>
    decreases |batches|
  {
    if batches == [] then [] else Flat(batches[..|batches| - 1]) + batches[|batches| - 1]
  }

  /** One file's position in the output: answered locally, or row `index` of batch `holder`. */
  datatype Slot = Slot(pf: ParsedFile, local: Option<FileExtraction>, holder: Option<nat>, index: nat)

  /** The content bytes of files [lo, hi). */
  function Bytes(files: seq<ParsedFile>, lo: nat, hi: nat): nat
    requires lo <= hi <= |files|
    decreases hi - lo
  {
    if lo == hi then 0 else Bytes(files, lo, hi - 1) + |files[hi - 1].content|
  }

  lemma {:induction false} BytesFront(files: seq<ParsedFile>, lo: nat, hi: nat)
    requires lo < hi <= |files|
    ensures Bytes(files, lo, hi) == |files[lo].content| + Bytes(files, lo + 1, hi)
    decreases hi - lo
  {
    if lo + 1 < hi {
      BytesFront(files, lo, hi - 1);
    }
  }

  /** The content bytes of a batch. */
  function Size(batch: seq<ParsedFile>): nat
    decreases |batch|
  {
    if batch == [] then 0 else Size(batch[..|batch| - 1]) + |batch[|batch| - 1].content|
  }

  /** The last file of a batch is the one that fills it. */
  predicate WithinLimit(batch: seq<ParsedFile>, batchLimit: int) {
    |batch| > 1 ==> Size(batch[..|batch| - 1]) < batchLimit
  }

  /** A slot is answered exactly as its file demands. */
  predicate SlotOk(s: Slot, submitted: seq<seq<ParsedFile>>) {
    if NeedsParse(s.pf) then s.local == None && (s.holder.Some? ==> HeldBy(s, submitted))
    else s.local == Some(NO_EXTRACTION) && s.holder == None
  }

  /** The slot's row of its batch is the slot's own file. */
  predicate HeldBy(s: Slot, submitted: seq<seq<ParsedFile>>)
    requires s.holder.Some?
  {
    s.holder.value < |submitted| && s.index < |submitted[s.holder.value]| && submitted[s.holder.value][s.index] == s.pf
  }

  predicate SlotsOk(slots: seq<Slot>, submitted: seq<seq<ParsedFile>>) {
    forall s <- slots :: SlotOk(s, submitted)
  }

  predicate Unsent(s: Slot) {
    NeedsParse(s.pf) && s.holder == None
  }

  /** `batch` lists the positions of the unsent slots and no other, `batchFiles` their files. */
  predicate BatchOk(slots: seq<Slot>, batch: seq<nat>, batchFiles: seq<ParsedFile>) {
    && |batch| == |batchFiles|
    && (forall i | 0 <= i < |batch| :: batch[i] < |slots| && Unsent(slots[batch[i]]) && slots[batch[i]].pf == batchFiles[i])
    && (forall p | 0 <= p < |slots| :: Unsent(slots[p]) ==> p in batch)
  }

  predicate Answers(slots: seq<Slot>, files: seq<ParsedFile>) {
    |slots| <= |files| && forall i | 0 <= i < |slots| :: slots[i].pf == files[i]
  }

  /**
   The generator's look-ahead. `slots` has one slot per file pulled so far; those
   from `yielded` on are the pending deque.
   */
  datatype Window = Window(
    slots: seq<Slot>,
    yielded: nat,
    pendingBytes: nat,
    batchFiles: seq<ParsedFile>,
    batchSlots: seq<nat>,
    batchBytes: nat,
    submitted: seq<seq<ParsedFile>>,
    exhausted: bool)
  {
    predicate Valid(files: seq<ParsedFile>) {
      && Answers(slots, files) && yielded <= |slots|
      && SlotsOk(slots, submitted)
      && BatchOk(slots, batchSlots, batchFiles)
      && Flat(submitted) + batchFiles == Qualifying(files[..|slots|])
      && (forall b <- submitted :: 0 < |b| <= MAX_BATCH_FILES)
      && |batchFiles| <= MAX_BATCH_FILES
      && pendingBytes == Bytes(files, yielded, |slots|)
      && (exhausted ==> |slots| == |files| && batchFiles == [])
    }

    /** The pull that crosses the byte budget is the last; the slot budget is never crossed. */
    predicate WithinBudget(files: seq<ParsedFile>, maxBytes: int, maxSlots: nat) {
      && yielded <= |slots| <= |files| && |slots| - yielded <= maxSlots
      && (yielded < |slots| ==> Bytes(files, yielded, |slots| - 1) < maxBytes)
    }

    /** No batch outgrows the limit by more than its last file; the current one is below it. */
    predicate Batched(batchLimit: int) {
      && |batchFiles| < MAX_BATCH_FILES
      && batchBytes == Size(batchFiles) && (batchFiles != [] ==> batchBytes < batchLimit)
      && (forall b <- submitted :: WithinLimit(b, batchLimit))
    }

    /** The window after its batch, if it has one, is submitted. */
    predicate Submits(r: Window) {
      r.batchFiles == [] && if batchFiles == [] then r == this
                            else r.batchBytes == 0 && r.submitted == submitted + [batchFiles]
    }
  }

  const EMPTY_WINDOW := Window([], 0, 0, [], [], 0, [], false)

  /** Submit the accumulated batch: every slot in it learns its batch and row. */
  method FlushBatch(w: Window, files: seq<ParsedFile>, submits: nat -> bool) returns (r: Window, ok: bool)
    requires w.Valid(files) && |w.batchFiles| <= MAX_BATCH_FILES
    ensures !ok ==> !submits(|w.submitted|)
    ensures ok ==> r.Valid(files) && w.Submits(r)
    ensures ok ==> |r.slots| == |w.slots| && r.yielded == w.yielded && r.exhausted == w.exhausted
  {
    if w.batchFiles == [] {
      return w, true;
    }
    if !submits(|w.submitted|) {
      return w, false;
    }
    var submitted := w.submitted + [w.batchFiles];
    BatchToFlush(w, files);
    hide SlotsOk, BatchOk, Answers, Qualifying, Bytes, Flat;
    var slots := AssignHolder(w.slots, files, submitted, w.batchSlots);
    FlushKeepsValid(w, files, slots);
    return Flushed(w, slots), true;
  }

  /** The window once its batch is submitted and `slots` point into it. */
  function Flushed(w: Window, slots: seq<Slot>): Window {
    w.(slots := slots, batchFiles := [], batchSlots := [], batchBytes := 0, submitted := w.submitted + [w.batchFiles])
  }

  lemma BatchToFlush(w: Window, files: seq<ParsedFile>)
    requires w.Valid(files)
    ensures Answers(w.slots, files) && SlotsOk(w.slots, w.submitted + [w.batchFiles])
    ensures BatchOk(w.slots, w.batchSlots, w.batchFiles)
  {
    hide SlotsOk, BatchOk, Answers, Qualifying, Bytes, Flat;
    MoreBatches(w.slots, w.submitted, w.batchFiles);
  }

  lemma FlushKeepsValid(w: Window, files: seq<ParsedFile>, slots: seq<Slot>)
    requires w.Valid(files) && w.batchFiles != [] && |slots| == |w.slots|
    requires Answers(slots, files) && SlotsOk(slots, w.submitted + [w.batchFiles]) && BatchOk(slots, [], [])
    ensures Flushed(w, slots).Valid(files)
  {
    hide SlotsOk, BatchOk, Answers, Qualifying, Bytes;
    var submitted := w.submitted + [w.batchFiles];
    assert submitted[..|w.submitted|] == w.submitted;
    assert Flat(submitted) + [] == Flat(w.submitted) + w.batchFiles;
    assert w.exhausted ==> w.batchFiles == [];
  }

  /** Point every slot of the batch at the newest future, row by row. */
  method AssignHolder(slots: seq<Slot>, files: seq<ParsedFile>, submitted: seq<seq<ParsedFile>>, batch: seq<nat>)
    returns (r: seq<Slot>)
    requires Answers(slots, files) && submitted != [] && SlotsOk(slots, submitted)
    requires BatchOk(slots, batch, submitted[|submitted| - 1])
    ensures |r| == |slots| && Answers(r, files) && SlotsOk(r, submitted) && BatchOk(r, [], [])
  {
    var holder := |submitted| - 1;
    r := slots;
    for i := 0 to |batch|
      invariant |r| == |slots| && Answers(r, files)
      invariant SlotsOk(r, submitted)
      invariant forall p | 0 <= p < |r| :: Unsent(r[p]) ==> p in batch[i..]
    {
      var p := batch[i];
      assert r[p] in r && slots[p].pf == files[p];
      var slot := r[p].(holder := Some(holder), index := i);
      assert SlotOk(slot, submitted) by {
        assert submitted[holder][i] == slot.pf;
      }
      r := r[p := slot];
      assert batch[i..] == [p] + batch[i + 1..];
    }
  }

  lemma MoreBatches(slots: seq<Slot>, submitted: seq<seq<ParsedFile>>, batch: seq<ParsedFile>)
    requires SlotsOk(slots, submitted)
    ensures SlotsOk(slots, submitted + [batch])
  {
    forall s | s in slots
      ensures SlotOk(s, submitted + [batch])
    {
      assert SlotOk(s, submitted);
    }
  }

  /** Pull one file from the source; at its end, submit what is left. */
  method PullOne(w: Window, files: seq<ParsedFile>, batchLimit: int, submits: nat -> bool) returns (r: Window, ok: bool)
    requires w.Valid(files) && w.Batched(batchLimit) && !w.exhausted
    ensures !ok ==> exists k: nat :: !submits(k)
    ensures ok ==> r.Valid(files) && r.Batched(batchLimit) && r.yielded == w.yielded
    ensures ok ==> r.exhausted == (|w.slots| == |files|)
    ensures ok ==> |r.slots| == if |w.slots| == |files| then |w.slots| else |w.slots| + 1
  {
    hide SlotsOk, BatchOk, Qualifying, Flat, WithinLimit, Size, Bytes;
    BatchedIsWithinLimit(w, batchLimit);
    if |w.slots| == |files| {
      r, ok := FlushBatch(w, files, submits);
      if ok {
        SubmitsKeepsBatches(w, r, batchLimit);
        r := r.(exhausted := true);
      }
      return;
    }
    r := Pulled(w, files);
    PullKeepsValid(w, files);
    PullKeepsBatches(w, files, batchLimit);
    if NeedsParse(files[|w.slots|]) && (r.batchBytes >= batchLimit || |r.batchFiles| >= MAX_BATCH_FILES) {
      ghost var pulled := r;
      r, ok := FlushBatch(r, files, submits);
      if ok {
        SubmitsKeepsBatches(pulled, r, batchLimit);
      }
      return;
    }
    return r, true;
  }

  lemma SubmitsKeepsBatches(w: Window, r: Window, batchLimit: int)
    requires w.Submits(r) && w.batchBytes == Size(w.batchFiles) && WithinLimit(w.batchFiles, batchLimit)
    requires forall b <- w.submitted :: WithinLimit(b, batchLimit)
    ensures r.Batched(batchLimit)
  {
    hide WithinLimit;
  }

  lemma BatchedIsWithinLimit(w: Window, batchLimit: int)
    requires w.Batched(batchLimit)
    ensures WithinLimit(w.batchFiles, batchLimit)
  {
  }

  lemma PullKeepsBatches(w: Window, files: seq<ParsedFile>, batchLimit: int)
    requires w.Batched(batchLimit) && |w.slots| < |files|
    ensures var r := Pulled(w, files);
      r.batchBytes == Size(r.batchFiles) && WithinLimit(r.batchFiles, batchLimit) && r.submitted == w.submitted
  {
    var pf := files[|w.slots|];
    assert (w.batchFiles + [pf])[..|w.batchFiles|] == w.batchFiles;
  }

  /** The window with one more file: answered at once, or added to the batch. */
  function Pulled(w: Window, files: seq<ParsedFile>): Window
    requires |w.slots| < |files|
  {
    var pf := files[|w.slots|];
    if NeedsParse(pf) then
      w.(slots := w.slots + [Slot(pf, None, None, 0)],
         pendingBytes := w.pendingBytes + |pf.content|,
         batchFiles := w.batchFiles + [pf],
         batchSlots := w.batchSlots + [|w.slots|],
         batchBytes := w.batchBytes + |pf.content|)
    else
      w.(slots := w.slots + [Slot(pf, Some(NO_EXTRACTION), None, 0)], pendingBytes := w.pendingBytes + |pf.content|)
  }

  lemma PullKeepsValid(w: Window, files: seq<ParsedFile>)
    requires w.Valid(files) && |w.batchFiles| < MAX_BATCH_FILES && !w.exhausted && |w.slots| < |files|
    ensures Pulled(w, files).Valid(files)
  {
    PullKeepsSlots(w, files);
    PullKeepsFiles(w, files);
    hide SlotsOk, BatchOk, Answers, Qualifying, Flat;
    var n := |w.slots|;
    assert Bytes(files, w.yielded, n + 1) == Bytes(files, w.yielded, n) + |files[n].content|;
  }

  lemma PullKeepsFiles(w: Window, files: seq<ParsedFile>)
    requires |w.slots| < |files| && Flat(w.submitted) + w.batchFiles == Qualifying(files[..|w.slots|])
    ensures Flat(Pulled(w, files).submitted) + Pulled(w, files).batchFiles == Qualifying(files[..|w.slots| + 1])
  {
    var n := |w.slots|;
    assert files[..n + 1][..n] == files[..n];
    hide Flat;
    if NeedsParse(files[n]) {
      assert Flat(w.submitted) + (w.batchFiles + [files[n]]) == (Flat(w.submitted) + w.batchFiles) + [files[n]];
    }
  }

  lemma PullKeepsSlots(w: Window, files: seq<ParsedFile>)
    requires |w.slots| < |files| && Answers(w.slots, files) && SlotsOk(w.slots, w.submitted)
    requires BatchOk(w.slots, w.batchSlots, w.batchFiles)
    ensures var r := Pulled(w, files);
      Answers(r.slots, files) && SlotsOk(r.slots, r.submitted) && BatchOk(r.slots, r.batchSlots, r.batchFiles)
  {
    hide NeedsParse;
    var r := Pulled(w, files);
    var n := |w.slots|;
    forall p | 0 <= p < |r.slots| && Unsent(r.slots[p])
      ensures p in r.batchSlots
    {
      if p == n {
        assert r.batchSlots[|w.batchSlots|] == n;
      } else {
        assert Unsent(w.slots[p]) && p in w.batchSlots;
      }
    }
  }

  /** Pull until a budget or the end of the source stops it. */
  method PullAhead(
    w: Window, files: seq<ParsedFile>, batchLimit: int, maxBytes: int, maxSlots: nat, submits: nat -> bool)
    returns (r: Window, ok: bool)
    requires w.Valid(files) && w.WithinBudget(files, maxBytes, maxSlots) && w.Batched(batchLimit)
    ensures !ok ==> exists k: nat :: !submits(k)
    ensures ok ==> r.Valid(files) && r.WithinBudget(files, maxBytes, maxSlots) && r.Batched(batchLimit)
    ensures ok ==> r.yielded == w.yielded && (r.exhausted || r.pendingBytes >= maxBytes || |r.slots| - r.yielded >= maxSlots)
    ensures w.pendingBytes >= maxBytes ==> ok && r == w
  {
    r, ok := w, true;
    while !r.exhausted && r.pendingBytes < maxBytes && |r.slots| - r.yielded < maxSlots
      invariant r.Valid(files) && r.WithinBudget(files, maxBytes, maxSlots) && r.Batched(batchLimit)
      invariant r.yielded == w.yielded
      invariant w.pendingBytes >= maxBytes ==> r == w
      decreases !r.exhausted, |files| - |r.slots|
    {
      ghost var before := r;
      r, ok := PullOne(r, files, batchLimit, submits);
      if !ok {
        return;
      }
      PullWithinBudget(before, r, files, maxBytes, maxSlots);
    }
  }

  lemma PullWithinBudget(w: Window, r: Window, files: seq<ParsedFile>, maxBytes: int, maxSlots: nat)
    requires w.Valid(files) && w.WithinBudget(files, maxBytes, maxSlots)
    requires w.pendingBytes < maxBytes && |w.slots| - w.yielded < maxSlots
    requires r.yielded == w.yielded && |r.slots| <= |files|
    requires |r.slots| == if |w.slots| == |files| then |w.slots| else |w.slots| + 1
    ensures r.WithinBudget(files, maxBytes, maxSlots)
  {
  }

  /** With `yielded` files out and `pulled` in, neither budget is exceeded but by the last file's bytes. */
  predicate InReach(files: seq<ParsedFile>, yielded: nat, pulled: nat, maxBytes: int, maxSlots: int) {
    yielded < pulled <= |files| && pulled - yielded <= maxSlots && Bytes(files, yielded, pulled - 1) < maxBytes
  }

  function InFlight(nProcesses: int): (n: nat)
    ensures n == if nProcesses >= 1 then 2 * nProcesses else 1
  {
    if 2 * nProcesses > 1 then 2 * nProcesses else 1
  }

  lemma ProductSign(a: int, b: int)
    requires a >= 1
    ensures b >= 1 <==> a * b >= 1
  {
    if b >= 1 {
      assert a * b >= 1;
    } else {
      assert a * b <= 0;
    }
  }

  /** What one `next` of the generator gives. */
  datatype Step = Yielded(extraction: FileExtraction) | Finished | Broken

  /**
   One `next`: pull ahead, submit the current batch if its first slot is about
   to be yielded, and yield the front slot.
   */
  method Next(
    w: Window, files: seq<ParsedFile>, extract: Extractor, batchLimit: int, maxBytes: int, maxSlots: nat,
    submits: nat -> bool, resolves: nat -> bool)
    returns (r: Window, step: Step)
    requires ShortCircuits(extract) && maxSlots >= 1
    requires w.Valid(files) && w.WithinBudget(files, maxBytes, maxSlots) && w.Batched(batchLimit)
    ensures step != Broken ==>
      r.Valid(files) && r.WithinBudget(files, maxBytes, maxSlots) && r.Batched(batchLimit)
    ensures step == Broken ==> exists k: nat :: !submits(k) || !resolves(k)
    ensures step.Yielded? ==> r.yielded == w.yielded + 1 <= |files| && step.extraction == extract(files[w.yielded])
    ensures step.Yielded? ==> InReach(files, w.yielded, |r.slots|, maxBytes, maxSlots)
    ensures step == Finished ==> r.yielded == w.yielded
    ensures step == Finished && maxBytes >= 1 ==> r.yielded == |files| && Flat(r.submitted) == Qualifying(files)
    ensures w == EMPTY_WINDOW && maxBytes < 1 ==> step == Finished && r == w
  {
    hide SlotsOk, BatchOk, Answers, Unsent, WithinLimit, Size, Bytes, ExtractBatch;
    var ok;
    r, ok := PullAhead(w, files, batchLimit, maxBytes, maxSlots, submits);
    if !ok {
      return r, Broken;
    }
    r, ok := SubmitFront(r, files, batchLimit, maxBytes, maxSlots, submits);
    if !ok {
      return r, Broken;
    }
    if r.yielded == |r.slots| {
      if maxBytes >= 1 {
        NothingPending(r, files, maxBytes, maxSlots);
      }
      return r, Finished;
    }
    var result, resolved := Answer(r, files, extract, resolves);
    if !resolved {
      return r, Broken;
    }
    PopKeeps(r, files, maxBytes, maxSlots);
    return Popped(r), Yielded(result);
  }

  lemma NothingPending(w: Window, files: seq<ParsedFile>, maxBytes: int, maxSlots: nat)
    requires w.Valid(files) && w.yielded == |w.slots| && maxBytes >= 1 && maxSlots >= 1
    requires w.exhausted || w.pendingBytes >= maxBytes || |w.slots| - w.yielded >= maxSlots
    ensures w.yielded == |files| && Flat(w.submitted) == Qualifying(files)
  {
    hide SlotsOk, BatchOk, Answers, Qualifying, Flat;
    assert files[..|files|] == files;
    assert Flat(w.submitted) + [] == Flat(w.submitted);
  }

  lemma EmptyIsValid(files: seq<ParsedFile>, batchLimit: int, maxBytes: int, maxSlots: nat)
    ensures EMPTY_WINDOW.Valid(files) && EMPTY_WINDOW.WithinBudget(files, maxBytes, maxSlots)
    ensures EMPTY_WINDOW.Batched(batchLimit)
  {
    assert files[..0] == [];
  }

  /** The window without its front slot. */
  function Popped(w: Window): Window
    requires w.yielded < |w.slots| && |w.slots[w.yielded].pf.content| <= w.pendingBytes
  {
    w.(yielded := w.yielded + 1, pendingBytes := w.pendingBytes - |w.slots[w.yielded].pf.content|)
  }

  /** Submit the current batch only when its first slot is about to be yielded. */
  method SubmitFront(
    w: Window, files: seq<ParsedFile>, batchLimit: int, maxBytes: int, maxSlots: nat, submits: nat -> bool)
    returns (r: Window, ok: bool)
    requires w.Valid(files) && w.WithinBudget(files, maxBytes, maxSlots) && w.Batched(batchLimit)
    ensures !ok ==> exists k: nat :: !submits(k)
    ensures ok ==> r.Valid(files) && r.WithinBudget(files, maxBytes, maxSlots) && r.Batched(batchLimit)
    ensures ok ==> |r.slots| == |w.slots| && r.yielded == w.yielded && r.exhausted == w.exhausted
    ensures ok ==> r.yielded < |r.slots| ==> !Unsent(r.slots[r.yielded])
    ensures w.yielded == |w.slots| ==> ok && r == w
  {
    hide BatchOk, Answers, Qualifying, Flat, WithinLimit, Size, Bytes;
    if w.yielded < |w.slots| && w.slots[w.yielded].local == None && w.slots[w.yielded].holder == None {
      r, ok := FlushBatch(w, files, submits);
      if ok {
        BatchedIsWithinLimit(w, batchLimit);
        SubmitsKeepsBatches(w, r, batchLimit);
        NothingUnsent(r, files);
      }
      return;
    }
    assert w.yielded < |w.slots| ==> w.slots[w.yielded] in w.slots && SlotOk(w.slots[w.yielded], w.submitted);
    return w, true;
  }

  lemma NothingUnsent(w: Window, files: seq<ParsedFile>)
    requires w.Valid(files) && w.batchFiles == []
    ensures forall p | 0 <= p < |w.slots| :: !Unsent(w.slots[p])
  {
  }

  /**
   The whole stream; `out` collects what is yielded. `submits(k)` and
   `resolves(k)` tell whether the pool accepts batch `k` and whether its future
   resolves; otherwise a worker died and the branch fails.
   */
  method StreamPooled(
    files: seq<ParsedFile>, extract: Extractor, nProcesses: int, batchLimit: int,
    submits: nat -> bool, resolves: nat -> bool)
    returns (
      out: seq<(ParsedFile, FileExtraction)>, broke: bool, submitted: seq<seq<ParsedFile>>, ghost pulled: seq<nat>)
    requires ShortCircuits(extract)
    ensures |out| <= |files| && out == Expected(files, extract)[..|out|]
    ensures broke ==> exists k: nat :: !submits(k) || !resolves(k)
    ensures !broke && batchLimit >= 1 ==> out == Expected(files, extract) && Flat(submitted) == Qualifying(files)
    ensures batchLimit < 1 ==> out == [] && submitted == [] && !broke
    ensures forall b <- submitted :: 0 < |b| <= MAX_BATCH_FILES && WithinLimit(b, batchLimit)
    ensures |pulled| == |out|
    ensures var inFlight := if nProcesses >= 1 then 2 * nProcesses else 1;
      forall k | 0 <= k < |out| :: InReach(files, k, pulled[k], inFlight * batchLimit, inFlight * 2000)
  {
    hide SlotsOk, BatchOk, Answers, Qualifying, Flat, WithinLimit, Size, Bytes, InReach, NeedsParse;
    var maxBytes, maxSlots := InFlight(nProcesses) * batchLimit, InFlight(nProcesses) * MAX_BATCH_FILES;
    ProductSign(InFlight(nProcesses), batchLimit);
    ProductSign(InFlight(nProcesses), MAX_BATCH_FILES);
    var w := EMPTY_WINDOW;
    out, broke, pulled := [], false, [];
    EmptyIsValid(files, batchLimit, maxBytes, maxSlots);
    while true
      invariant w.Valid(files) && w.WithinBudget(files, maxBytes, maxSlots) && w.Batched(batchLimit)
      invariant |out| == w.yielded && out == Expected(files, extract)[..|out|]
      invariant batchLimit < 1 ==> w == EMPTY_WINDOW
      invariant |pulled| == |out| && forall k | 0 <= k < |out| :: InReach(files, k, pulled[k], maxBytes, maxSlots)
      decreases |files| - |out|
    {
      submitted := w.submitted;
      var r, step := Next(w, files, extract, batchLimit, maxBytes, maxSlots, submits, resolves);
      match step
      case Broken =>
        return out, true, submitted, pulled;
      case Finished =>
        return out, false, r.submitted, pulled;
      case Yielded(extraction) =>
        ExpectedSnoc(files, extract, w.yielded);
        out := out + [(files[w.yielded], extraction)];
        pulled := pulled + [|r.slots|];
        w := r;
    }
  }

  /** The front slot's extraction, unless the future it waits for breaks. */
  method Answer(w: Window, files: seq<ParsedFile>, extract: Extractor, resolves: nat -> bool)
    returns (result: FileExtraction, resolved: bool)
    requires ShortCircuits(extract) && w.Valid(files) && w.yielded < |w.slots|
    requires !Unsent(w.slots[w.yielded])
    ensures resolved ==> result == extract(files[w.yielded])
    ensures !resolved ==> exists k: nat :: !resolves(k)
  {
    var slot := w.slots[w.yielded];
    assert slot in w.slots && SlotOk(slot, w.submitted);
    if slot.local.Some? {
      return slot.local.value, true;
    }
    assert slot.holder.Some?;  // the original asserts this too
    if !resolves(slot.holder.value) {
      return NO_EXTRACTION, false;
    }
    return ExtractBatch(w.submitted[slot.holder.value], extract)[slot.index], true;
  }

  lemma ExpectedSnoc(files: seq<ParsedFile>, extract: Extractor, n: nat)
    requires n < |files|
    ensures Expected(files, extract)[..n + 1] == Expected(files, extract)[..n] + [(files[n], extract(files[n]))]
  {
  }

  /** Yielding the front slot keeps the window and its budgets. */
  lemma PopKeeps(w: Window, files: seq<ParsedFile>, maxBytes: int, maxSlots: nat)
    requires w.Valid(files) && w.WithinBudget(files, maxBytes, maxSlots) && w.yielded < |w.slots|
    ensures |w.slots[w.yielded].pf.content| <= w.pendingBytes
    ensures Popped(w).Valid(files) && Popped(w).WithinBudget(files, maxBytes, maxSlots)
  {
    hide SlotsOk, BatchOk, Qualifying, Flat;
    BytesFront(files, w.yielded, |w.slots|);
    if w.yielded + 1 < |w.slots| {
      BytesFront(files, w.yielded, |w.slots| - 1);
    }
  }

  /** With no batch budget the stream ends at once and loses every file. */
  method ZeroBudgetLosesFiles(pf: ParsedFile, extract: Extractor, nProcesses: int)
    returns (out: seq<(ParsedFile, FileExtraction)>)
    requires ShortCircuits(extract)
    ensures out == [] && Expected([pf], extract) != []
  {
    var broke, submitted;
    ghost var pulled;
    out, broke, submitted, pulled := StreamPooled([pf], extract, nProcesses, 0, _ => true, _ => true);
  }
}
