module Embedding {
  // Vectors for chunk texts (app/embed.py) and the re-slicing that gives each chunk
  // its own (indexer/job.py): batches, bounded retries, any order of completion.

  import opened Wrappers
  import opened Languages
  import opened Chunks

  type Vector = seq<real>

  datatype EmbedError =
    | Fault(message: string)
    | CountMismatch(got: nat, expected: nat)
    | DimMismatch(got: nat)
    | TooManyChunks(total: nat)

  /** What the endpoint answers to one request: a failure of any kind, or some vectors. */
  datatype Reply = Failed(message: string) | Vectors(vectors: seq<Vector>)

  /** The reply to attempt `attempt` at batch `ordinal`, which holds these texts. */
  type Service = (nat, nat, seq<string>) -> Reply

  // ------------------------------------------------------------------ one batch

  /** The outcome of the attempts from `attempt` on: the first reply that is no failure decides. */
  function Outcome(service: Service, ordinal: nat, batch: seq<string>, attempt: nat, maxRetries: nat)
    : Result<seq<Vector>, EmbedError>
    requires attempt <= maxRetries
    decreases maxRetries - attempt
  {
    match service(ordinal, attempt, batch)
    case Vectors(vs) => if |vs| == |batch| then Ok(vs) else Err(CountMismatch(|vs|, |batch|))
    case Failed(message) =>
      if attempt == maxRetries then Err(Fault(message)) else Outcome(service, ordinal, batch, attempt + 1, maxRetries)
  }

  /** A batch succeeds exactly when, after nothing but failures, an attempt in the bound brings one vector a text. */
  lemma {:induction false} OutcomeIsFirstReply(
    service: Service, ordinal: nat, batch: seq<string>, attempt: nat, maxRetries: nat, vs: seq<Vector>)
    requires attempt <= maxRetries
    ensures Outcome(service, ordinal, batch, attempt, maxRetries) == Ok(vs) <==>
      |vs| == |batch| && exists a | attempt <= a <= maxRetries ::
        service(ordinal, a, batch) == Vectors(vs) && forall b | attempt <= b < a :: service(ordinal, b, batch).Failed?
    decreases maxRetries - attempt
  {
    if service(ordinal, attempt, batch).Failed? && attempt < maxRetries {
      OutcomeIsFirstReply(service, ordinal, batch, attempt + 1, maxRetries, vs);
    }
  }

  method QueryBatch(service: Service, ordinal: nat, batch: seq<string>, maxRetries: nat)
    returns (r: Result<seq<Vector>, EmbedError>)
    ensures r == Outcome(service, ordinal, batch, 0, maxRetries)
  {
    var lastFault := "";
    var attempt: nat := 0;
    while attempt <= maxRetries
      invariant attempt <= maxRetries + 1
      invariant attempt <= maxRetries ==>
        Outcome(service, ordinal, batch, 0, maxRetries) == Outcome(service, ordinal, batch, attempt, maxRetries)
      invariant attempt == maxRetries + 1 ==> Outcome(service, ordinal, batch, 0, maxRetries) == Err(Fault(lastFault))
    {
      var reply := service(ordinal, attempt, batch);
      if reply.Vectors? {
        if |reply.vectors| != |batch| {
          return Err(CountMismatch(|reply.vectors|, |batch|));
        }
        return Ok(reply.vectors);
      }
      lastFault := reply.message;
      attempt := attempt + 1;
    }
    return Err(Fault(lastFault));
  }

  // ------------------------------------------------------------------ all batches

  function Batches(texts: seq<string>, size: nat): seq<seq<string>>
    requires size > 0
    decreases |texts|
  {
    if |texts| <= size then (if texts == [] then [] else [texts])
    else [texts[..size]] + Batches(texts[size..], size)
  }

  /** No batch is empty or larger than the size, and each but the last is full. */
  lemma {:induction false} BatchesAreFull(texts: seq<string>, size: nat, k: nat)
    requires size > 0 && k < |Batches(texts, size)|
    ensures var batches := Batches(texts, size);
      1 <= |batches[k]| <= size && (k < |batches| - 1 ==> |batches[k]| == size)
    decreases |texts|
  {
    if |texts| > size && k > 0 {
      BatchesAreFull(texts[size..], size, k - 1);
    }
  }

  /** The batches' vectors behind one another; of several failures, that of the lowest ordinal. */
  function Gathered(service: Service, batches: seq<seq<string>>, ordinal: nat, maxRetries: nat)
    : Result<seq<Vector>, EmbedError>
    decreases |batches|
  {
    if batches == [] then Ok([])
    else
      match Outcome(service, ordinal, batches[0], 0, maxRetries)
      case Err(e) => Err(e)
      case Ok(vs) => Prefixed(vs, Gathered(service, batches[1..], ordinal + 1, maxRetries))
  }

  function Prefixed(vs: seq<Vector>, rest: Result<seq<Vector>, EmbedError>): Result<seq<Vector>, EmbedError> {
    match rest case Err(e) => Err(e) case Ok(more) => Ok(vs + more)
  }

  lemma PrefixedTwice(a: seq<Vector>, b: seq<Vector>, rest: Result<seq<Vector>, EmbedError>)
    ensures Prefixed(a, Prefixed(b, rest)) == Prefixed(a + b, rest)
  {
    assert rest.Ok? ==> a + (b + rest.value) == (a + b) + rest.value;
  }

  lemma PrefixedNothing(rest: Result<seq<Vector>, EmbedError>)
    ensures Prefixed([], rest) == rest
  {
    assert rest.Ok? ==> [] + rest.value == rest.value;
  }

  /** Every batch completes once, in any order. */
  predicate IsCompletionOrder(order: seq<nat>, n: nat) {
    |order| == n && forall k | 0 <= k < n :: k in order
  }

  /** The vectors in order of submission, whatever the order of completion. */
  method RunPooled(service: Service, batches: seq<seq<string>>, maxRetries: nat, order: seq<nat>)
    returns (r: Result<seq<Vector>, EmbedError>)
    requires IsCompletionOrder(order, |batches|) && forall k <- order :: k < |batches|
    ensures r == Gathered(service, batches, 0, maxRetries)
  {
    var slots: seq<Option<Result<seq<Vector>, EmbedError>>> := seq(|batches|, _ => None);
    for i := 0 to |order|
      invariant |slots| == |batches|
      invariant forall k | 0 <= k < |slots| && k in order[..i] ::
        slots[k] == Some(Outcome(service, k, batches[k], 0, maxRetries))
    {
      var k := order[i];
      assert k in order;
      var done := QueryBatch(service, k, batches[k], maxRetries);
      slots := slots[k := Some(done)];
    }
    assert order[..|order|] == order;
    r := InSubmissionOrder(service, batches, maxRetries, slots);
  }

  method InSubmissionOrder(service: Service, batches: seq<seq<string>>, maxRetries: nat,
                           slots: seq<Option<Result<seq<Vector>, EmbedError>>>)
    returns (r: Result<seq<Vector>, EmbedError>)
    requires |slots| == |batches|
    requires forall k | 0 <= k < |slots| :: slots[k] == Some(Outcome(service, k, batches[k], 0, maxRetries))
    ensures r == Gathered(service, batches, 0, maxRetries)
  {
    var vectors: seq<Vector> := [];
    PrefixedNothing(Gathered(service, batches, 0, maxRetries));
    hide Outcome;
    for k := 0 to |batches|
      invariant Gathered(service, batches, 0, maxRetries) == Prefixed(vectors, Gathered(service, batches[k..], k, maxRetries))
    {
      assert batches[k..][0] == batches[k] && batches[k..][1..] == batches[k + 1..];
      var vs :- slots[k].value;
      PrefixedTwice(vectors, vs, Gathered(service, batches[k + 1..], k + 1, maxRetries));
      vectors := vectors + vs;
    }
    assert vectors + [] == vectors;
    return Ok(vectors);
  }

  /** One batch after another; the first failure stops the loop. */
  method RunSerial(service: Service, batches: seq<seq<string>>, maxRetries: nat)
    returns (r: Result<seq<Vector>, EmbedError>)
    ensures r == Gathered(service, batches, 0, maxRetries)
  {
    var vectors: seq<Vector> := [];
    PrefixedNothing(Gathered(service, batches, 0, maxRetries));
    hide Outcome;
    for k := 0 to |batches|
      invariant Gathered(service, batches, 0, maxRetries) == Prefixed(vectors, Gathered(service, batches[k..], k, maxRetries))
    {
      assert batches[k..][0] == batches[k] && batches[k..][1..] == batches[k + 1..];
      var vs :- QueryBatch(service, k, batches[k], maxRetries);
      PrefixedTwice(vectors, vs, Gathered(service, batches[k + 1..], k + 1, maxRetries));
      vectors := vectors + vs;
    }
    assert vectors + [] == vectors;
    return Ok(vectors);
  }

  function CheckDims(vectors: seq<Vector>, dim: nat): Option<EmbedError>
    decreases |vectors|
  {
    if vectors == [] then None
    else if |vectors[0]| != dim then Some(DimMismatch(|vectors[0]|))
    else CheckDims(vectors[1..], dim)
  }

  lemma {:induction false} CheckDimsIsComplete(vectors: seq<Vector>, dim: nat)
    ensures CheckDims(vectors, dim) == None <==> forall v <- vectors :: |v| == dim
    decreases |vectors|
  {
    if vectors != [] {
      CheckDimsIsComplete(vectors[1..], dim);
      assert vectors == [vectors[0]] + vectors[1..];
    }
  }

  function Embedded(service: Service, texts: seq<string>, batchSize: nat, maxRetries: nat, dim: nat)
    : Result<seq<Vector>, EmbedError>
    requires batchSize > 0
  {
    match Gathered(service, Batches(texts, batchSize), 0, maxRetries)
    case Err(e) => Err(e)
    case Ok(vs) => (match CheckDims(vs, dim) case Some(e) => Err(e) case None => Ok(vs))
  }

  /** The result depends neither on the concurrency nor on the order in which batches complete. */
  method Embed(
    service: Service, texts: seq<string>, batchSize: nat, maxRetries: nat, dim: nat, concurrency: nat, order: seq<nat>)
    returns (r: Result<seq<Vector>, EmbedError>)
    requires batchSize > 0
    requires var n := |Batches(texts, batchSize)|; IsCompletionOrder(order, n) && forall k <- order :: k < n
    ensures r == Embedded(service, texts, batchSize, maxRetries, dim)
  {
    var batches := Batches(texts, batchSize);
    var gathered;
    if concurrency <= 1 || |batches| <= 1 {
      gathered := RunSerial(service, batches, maxRetries);
    } else {
      gathered := RunPooled(service, batches, maxRetries, order);
    }
    var vectors :- gathered;
    var bad := CheckDims(vectors, dim);
    if bad.Some? {
      return Err(bad.value);
    }
    return Ok(vectors);
  }

  // ------------------------------------------------------------------ each text its own vector

  function MapVec(texts: seq<string>, vec: string -> Vector): (vs: seq<Vector>)
    ensures |vs| == |texts|
    ensures forall i | 0 <= i < |texts| :: vs[i] == vec(texts[i])
  {
    seq(|texts|, i requires 0 <= i < |texts| => vec(texts[i]))
  }

  /** A complete reply to a batch holds the batch's own vectors, in its order. */
  ghost predicate AnswersItsBatch(service: Service, ordinal: nat, batch: seq<string>, vec: string -> Vector) {
    forall attempt: nat | service(ordinal, attempt, batch).Vectors? ::
      |service(ordinal, attempt, batch).vectors| == |batch| ==> service(ordinal, attempt, batch).vectors == MapVec(batch, vec)
  }

  ghost predicate Faithful(service: Service, batches: seq<seq<string>>, ordinal: nat, vec: string -> Vector)
    decreases |batches|
  {
    batches == [] ||
    (AnswersItsBatch(service, ordinal, batches[0], vec) && Faithful(service, batches[1..], ordinal + 1, vec))
  }

  lemma {:induction false} OutcomeIsFaithful(
    service: Service, ordinal: nat, batch: seq<string>, attempt: nat, maxRetries: nat, vec: string -> Vector)
    requires attempt <= maxRetries && Outcome(service, ordinal, batch, attempt, maxRetries).Ok?
    requires AnswersItsBatch(service, ordinal, batch, vec)
    ensures Outcome(service, ordinal, batch, attempt, maxRetries) == Ok(MapVec(batch, vec))
    decreases maxRetries - attempt
  {
    if service(ordinal, attempt, batch).Failed? {
      OutcomeIsFaithful(service, ordinal, batch, attempt + 1, maxRetries, vec);
    }
  }

  function Flatten(batches: seq<seq<string>>): seq<string>
    decreases |batches|
  {
    if batches == [] then [] else batches[0] + Flatten(batches[1..])
  }

  /** The batches are the texts, cut. */
  lemma {:induction false} BatchesAreTheTexts(texts: seq<string>, size: nat)
    requires size > 0
    ensures Flatten(Batches(texts, size)) == texts
    decreases |texts|
  {
    if |texts| > size {
      var rest := Batches(texts[size..], size);
      BatchesAreTheTexts(texts[size..], size);
      assert ([texts[..size]] + rest)[1..] == rest;
      assert texts == texts[..size] + texts[size..];
    } else if texts != [] {
      assert [texts][1..] == [] && texts + [] == texts;
    }
  }

  lemma {:induction false} GatheredIsFaithful(
    service: Service, batches: seq<seq<string>>, ordinal: nat, maxRetries: nat, vec: string -> Vector)
    requires Faithful(service, batches, ordinal, vec) && Gathered(service, batches, ordinal, maxRetries).Ok?
    ensures Gathered(service, batches, ordinal, maxRetries) == Ok(MapVec(Flatten(batches), vec))
    decreases |batches|
  {
    hide Outcome;
    if batches != [] {
      var rest := batches[1..];
      OutcomeIsFaithful(service, ordinal, batches[0], 0, maxRetries, vec);
      GatheredIsFaithful(service, rest, ordinal + 1, maxRetries, vec);
      assert MapVec(batches[0], vec) + MapVec(Flatten(rest), vec) == MapVec(batches[0] + Flatten(rest), vec);
    }
  }

  /** For any batch size, retries, concurrency and completion order: one vector a text, its own. */
  lemma EmbeddingIsFaithful(
    service: Service, texts: seq<string>, batchSize: nat, maxRetries: nat, dim: nat, vec: string -> Vector)
    requires batchSize > 0 && Faithful(service, Batches(texts, batchSize), 0, vec)
    requires Embedded(service, texts, batchSize, maxRetries, dim).Ok?
    ensures Embedded(service, texts, batchSize, maxRetries, dim) == Ok(MapVec(texts, vec))
    ensures forall t <- texts :: |vec(t)| == dim
  {
    GatheredIsFaithful(service, Batches(texts, batchSize), 0, maxRetries, vec);
    BatchesAreTheTexts(texts, batchSize);
    CheckDimsIsComplete(MapVec(texts, vec), dim);
    forall t | t in texts
      ensures |vec(t)| == dim
    {
      var i :| 0 <= i < |texts| && texts[i] == t;
      assert MapVec(texts, vec)[i] in MapVec(texts, vec);
    }
  }

  // ------------------------------------------------------------------ re-slicing for the files

  datatype Row = Row(index: nat, content: string, startLine: nat, endLine: nat, vector: Vector)

  /** The chunks of each path, paths in order of first appearance; a later file of a path replaces the earlier. */
  datatype PerFile = PerFile(order: seq<string>, chunksOf: map<string, seq<Chunk>>)

  predicate WellFormed(d: PerFile) {
    && (forall p <- d.order :: p in d.chunksOf) && (forall p <- d.chunksOf.Keys :: p in d.order)
    && forall i, j | 0 <= i < j < |d.order| :: d.order[i] != d.order[j]
  }

  /** The last file at a path. */
  function LastFile(files: seq<ParsedFile>, path: string): Option<ParsedFile>
    decreases |files|
  {
    if files == [] then None
    else
      var n := |files| - 1;
      if files[n].path == path then Some(files[n]) else LastFile(files[..n], path)
  }

  /** Each path has the chunks of the last file that carries it. */
  ghost predicate ChunksOfFiles(files: seq<ParsedFile>, d: PerFile, maxChars: nat) {
    forall p :: && (p in d.chunksOf <==> LastFile(files, p).Some?)
                && (p in d.chunksOf ==> ChunksOf(LastFile(files, p).value, d.chunksOf[p], maxChars))
  }

  predicate ChunksOf(pf: ParsedFile, chunks: seq<Chunk>, maxChars: nat) {
    Covers(SplitLines(pf.content), chunks, |SplitLines(pf.content)|, maxChars)
  }

  method ChunkFiles(files: seq<ParsedFile>, maxChars: nat) returns (d: PerFile)
    ensures WellFormed(d) && ChunksOfFiles(files, d, maxChars)
  {
    d := PerFile([], map[]);
    hide ChunksOf;
    for n := 0 to |files|
      invariant WellFormed(d) && ChunksOfFiles(files[..n], d, maxChars)
    {
      var chunks := IterChunks(files[n], maxChars);
      ghost var before := d;
      d := PutFile(d, files[n].path, chunks);
      ChunksOfIs(files[n], chunks, maxChars);
      PutKeeps(files, n, before, chunks, maxChars);
    }
    assert files[..|files|] == files;
  }

  lemma ChunksOfIs(pf: ParsedFile, chunks: seq<Chunk>, maxChars: nat)
    ensures ChunksOf(pf, chunks, maxChars) <==>
      Covers(SplitLines(pf.content), chunks, |SplitLines(pf.content)|, maxChars)
  {
  }

  function PutFile(d: PerFile, path: string, chunks: seq<Chunk>): PerFile {
    PerFile(if path in d.chunksOf then d.order else d.order + [path], d.chunksOf[path := chunks])
  }

  lemma PutKeeps(files: seq<ParsedFile>, n: nat, d: PerFile, chunks: seq<Chunk>, maxChars: nat)
    requires n < |files| && WellFormed(d) && ChunksOfFiles(files[..n], d, maxChars)
    requires ChunksOf(files[n], chunks, maxChars)
    ensures WellFormed(PutFile(d, files[n].path, chunks))
    ensures ChunksOfFiles(files[..n + 1], PutFile(d, files[n].path, chunks), maxChars)
  {
    PutIsWellFormed(d, files[n].path, chunks);
    hide ChunksOf, WellFormed;
    assert files[..n + 1][..n] == files[..n];
  }

  lemma PutIsWellFormed(d: PerFile, path: string, chunks: seq<Chunk>)
    requires WellFormed(d)
    ensures WellFormed(PutFile(d, path, chunks))
  {
    assert path !in d.chunksOf ==> path !in d.order;
  }

  /** The chunks of the first `n` paths, behind one another. */
  function AllChunks(d: PerFile, n: nat): seq<Chunk>
    requires WellFormed(d) && n <= |d.order|
  {
    if n == 0 then [] else AllChunks(d, n - 1) + d.chunksOf[d.order[n - 1]]
  }

  function RowsAt(chunks: seq<Chunk>, vectors: seq<Vector>, from: nat): (rows: seq<Row>)
    requires from + |chunks| <= |vectors|
    ensures |rows| == |chunks|
  {
    seq(|chunks|, j requires 0 <= j < |chunks| =>
      Row(chunks[j].index, chunks[j].content, chunks[j].startLine, chunks[j].endLine, vectors[from + j]))
  }

  lemma {:induction false} AllChunksGrow(d: PerFile, i: nat, n: nat)
    requires WellFormed(d) && i <= n <= |d.order|
    ensures AllChunks(d, i) <= AllChunks(d, n)
    decreases n
  {
    if i < n {
      AllChunksGrow(d, i, n - 1);
    }
  }

  lemma AllChunksNext(d: PerFile, k: nat)
    requires WellFormed(d) && k < |d.order|
    ensures d.order[k] in d.chunksOf
    ensures AllChunks(d, k + 1) == AllChunks(d, k) + d.chunksOf[d.order[k]]
    ensures |AllChunks(d, k + 1)| <= |AllChunks(d, |d.order|)|
  {
    AllChunksGrow(d, k + 1, |d.order|);
  }

  /** The rows of the first `k` paths that have chunks, vectors in the order of all chunks. */
  function Sliced(d: PerFile, vectors: seq<Vector>, k: nat): map<string, seq<Row>>
    requires WellFormed(d) && k <= |d.order| && |vectors| == |AllChunks(d, |d.order|)|
  {
    if k == 0 then map[]
    else
      AllChunksNext(d, k - 1);
      var path := d.order[k - 1];
      var chunks := d.chunksOf[path];
      if chunks == [] then Sliced(d, vectors, k - 1)
      else Sliced(d, vectors, k - 1)[path := RowsAt(chunks, vectors, |AllChunks(d, k - 1)|)]
  }

  /** The loop over the paths moves one index through the flat list of vectors. */
  method SliceRows(d: PerFile, vectors: seq<Vector>) returns (byPath: map<string, seq<Row>>)
    requires WellFormed(d) && |vectors| == |AllChunks(d, |d.order|)|
    ensures byPath == Sliced(d, vectors, |d.order|)
  {
    byPath := map[];
    var i: nat := 0;
    hide WellFormed, RowsAt;
    for k := 0 to |d.order|
      invariant i == |AllChunks(d, k)| && byPath == Sliced(d, vectors, k)
    {
      AllChunksNext(d, k);
      var path := d.order[k];
      var chunks := d.chunksOf[path];
      if chunks == [] {
        continue;
      }
      byPath := byPath[path := RowsAt(chunks, vectors, i)];
      i := i + |chunks|;
    }
  }

  /** Exactly the paths with chunks have rows: their own chunks, with the vectors behind those of the paths before. */
  lemma {:induction false} SlicedAt(d: PerFile, vectors: seq<Vector>, k: nat, m: nat)
    requires WellFormed(d) && m < k <= |d.order| && |vectors| == |AllChunks(d, |d.order|)|
    ensures var path := d.order[m];
      && path in d.chunksOf && |AllChunks(d, m)| + |d.chunksOf[path]| <= |vectors|
      && (path in Sliced(d, vectors, k) <==> d.chunksOf[path] != [])
      && (path in Sliced(d, vectors, k) ==>
            Sliced(d, vectors, k)[path] == RowsAt(d.chunksOf[path], vectors, |AllChunks(d, m)|))
    decreases k
  {
    hide *;
    SlicedNext(d, vectors, k - 1);
    NewPath(d, k - 1);
    if m == k - 1 {
      SlicedPaths(d, vectors, m);
    } else {
      SlicedAt(d, vectors, k - 1, m);
    }
  }

  lemma SlicedNext(d: PerFile, vectors: seq<Vector>, k: nat)
    requires WellFormed(d) && k < |d.order| && |vectors| == |AllChunks(d, |d.order|)|
    ensures var path := d.order[k];
      && path in d.chunksOf && |AllChunks(d, k)| + |d.chunksOf[path]| <= |vectors|
      && Sliced(d, vectors, k + 1) ==
           if d.chunksOf[path] == [] then Sliced(d, vectors, k)
           else Sliced(d, vectors, k)[path := RowsAt(d.chunksOf[path], vectors, |AllChunks(d, k)|)]
  {
    AllChunksNext(d, k);
    hide RowsAt;
  }

  lemma NewPath(d: PerFile, k: nat)
    requires WellFormed(d) && k < |d.order|
    ensures d.order[k] !in d.order[..k] && forall i | 0 <= i < k :: d.order[i] != d.order[k]
  {
  }

  lemma {:induction false} SlicedPaths(d: PerFile, vectors: seq<Vector>, k: nat)
    requires WellFormed(d) && k <= |d.order| && |vectors| == |AllChunks(d, |d.order|)|
    ensures forall p <- Sliced(d, vectors, k).Keys :: p in d.order[..k]
    decreases k
  {
    hide AllChunks, RowsAt;
    if k > 0 {
      SlicedPaths(d, vectors, k - 1);
      assert d.order[..k] == d.order[..k - 1] + [d.order[k - 1]];
    }
  }

  function ChunkView(rows: seq<Row>): (chunks: seq<Chunk>)
    ensures |chunks| == |rows|
  {
    seq(|rows|, j requires 0 <= j < |rows| => Chunk(rows[j].index, rows[j].content, rows[j].startLine, rows[j].endLine))
  }

  predicate OwnVectors(rows: seq<Row>, vec: string -> Vector) {
    forall j | 0 <= j < |rows| :: rows[j].vector == vec(rows[j].content)
  }

  lemma SliceHasOwnVectors(all: seq<Chunk>, before: seq<Chunk>, chunks: seq<Chunk>, vectors: seq<Vector>, vec: string -> Vector)
    requires before + chunks <= all && vectors == MapVec(Contents(all), vec)
    ensures var rows := RowsAt(chunks, vectors, |before|); ChunkView(rows) == chunks && OwnVectors(rows, vec)
  {
    var rows := RowsAt(chunks, vectors, |before|);
    forall j | 0 <= j < |chunks|
      ensures rows[j].vector == vec(rows[j].content)
    {
      assert (before + chunks)[|before| + j] == chunks[j];
      assert Contents(all)[|before| + j] == chunks[j].content;
    }
  }

  /** The rows are the chunks of the last file at the path, and each carries the vector of its own text. */
  ghost predicate RowsOfFiles(files: seq<ParsedFile>, byPath: map<string, seq<Row>>, path: string, vec: string -> Vector) {
    && (path in byPath <==> LastFile(files, path).Some? && LastFile(files, path).value.content != "")
    && (path in byPath ==>
          ChunksOf(LastFile(files, path).value, ChunkView(byPath[path]), MAX_CHARS) && OwnVectors(byPath[path], vec))
  }

  lemma EmptyFileHasNoChunks(pf: ParsedFile, chunks: seq<Chunk>)
    requires ChunksOf(pf, chunks, MAX_CHARS)
    ensures chunks == [] <==> pf.content == ""
  {
    ChunksAreTheFile(pf.content, chunks, MAX_CHARS);
  }

  /** A complete reply holds the vectors of the texts it was asked for. */
  ghost predicate Honest(service: Service, vec: string -> Vector) {
    forall ordinal: nat, batch: seq<string> :: AnswersItsBatch(service, ordinal, batch, vec)
  }

  lemma {:induction false} HonestIsFaithful(
    service: Service, batches: seq<seq<string>>, ordinal: nat, vec: string -> Vector)
    requires Honest(service, vec)
    ensures Faithful(service, batches, ordinal, vec)
    decreases |batches|
  {
    if batches != [] {
      HonestIsFaithful(service, batches[1..], ordinal + 1, vec);
    }
  }

  /** An endpoint that fails any attempt it likes, and else answers what it was asked, is honest. */
  lemma HonestWhateverFails(fails: (nat, nat) -> bool, vec: string -> Vector)
    ensures Honest((ordinal: nat, attempt: nat, batch) => if fails(ordinal, attempt) then Failed("") else Vectors(MapVec(batch, vec)), vec)
  {
  }

  /** The texts of all chunks of the files, path by path. */
  ghost predicate ChunkTexts(files: seq<ParsedFile>, d: PerFile, texts: seq<string>) {
    WellFormed(d) && ChunksOfFiles(files, d, MAX_CHARS) && texts == Contents(AllChunks(d, |d.order|))
  }

  /** One chunk list a path, and all chunk texts in one list; too many are refused, and nothing else is. */
  method CollectTexts(files: seq<ParsedFile>, maxChunks: nat)
    returns (d: PerFile, texts: seq<string>, refused: Option<EmbedError>)
    ensures ChunkTexts(files, d, texts)
    ensures refused == if |texts| > maxChunks then Some(TooManyChunks(|texts|)) else None
  {
    hide WellFormed, ChunksOf, AllChunks, LastFile, Contents;
    d := ChunkFiles(files, MAX_CHARS);
    texts := Contents(AllChunks(d, |d.order|));
    refused := if |texts| > maxChunks then Some(TooManyChunks(|texts|)) else None;
  }

  /** Each path gets its stretch of the vectors; a wrong number of them is refused. */
  method AttachVectors(
    files: seq<ParsedFile>, d: PerFile, texts: seq<string>, vectors: seq<Vector>, ghost vec: string -> Vector)
    returns (r: Result<map<string, seq<Row>>, EmbedError>)
    requires WellFormed(d) && ChunksOfFiles(files, d, MAX_CHARS) && texts == Contents(AllChunks(d, |d.order|))
    ensures r.Ok? <==> |vectors| == |texts|
    ensures vectors == MapVec(texts, vec) ==> forall path :: RowsOfFiles(files, r.value, path, vec)
  {
    hide WellFormed, ChunksOf, RowsAt, OwnVectors, ChunkView, AllChunks, Sliced, LastFile, Contents, MapVec;
    if |vectors| != |texts| {
      return Err(CountMismatch(|vectors|, |texts|));
    }
    ContentsLength(AllChunks(d, |d.order|));
    var byPath := SliceRows(d, vectors);
    if vectors == MapVec(texts, vec) {
      forall path
        ensures RowsOfFiles(files, byPath, path, vec)
      {
        PathHasRows(d, vectors, path, vec);
        if path in d.chunksOf {
          EmptyFileHasNoChunks(LastFile(files, path).value, d.chunksOf[path]);
        }
      }
    }
    return Ok(byPath);
  }

  /**
   The rows to store for a set of files, with any embedder plugged in. Rows come back
   exactly when the chunk texts are no more than allowed and, if there are any, the
   embedder answers them with as many vectors. If these are the vectors of the texts,
   each row carries the vector of its own text.
   */
  method PrecomputeRows(
    files: seq<ParsedFile>, embed: seq<string> -> Result<seq<Vector>, EmbedError>, maxChunks: nat, ghost vec: string -> Vector)
    returns (r: Result<map<string, seq<Row>>, EmbedError>, texts: seq<string>)
    ensures exists d :: ChunkTexts(files, d, texts)
    ensures r.Ok? <==>
      |texts| <= maxChunks && (texts == [] || (embed(texts).Ok? && |embed(texts).value| == |texts|))
    ensures r.Ok? && (texts == [] || embed(texts) == Ok(MapVec(texts, vec))) ==>
      forall path :: RowsOfFiles(files, r.value, path, vec)
  {
    hide WellFormed, ChunksOfFiles, RowsOfFiles, MapVec, Contents, AllChunks;
    var d, refused;
    d, texts, refused := CollectTexts(files, maxChunks);
    if refused.Some? {
      return Err(refused.value), texts;
    }
    var answer := if texts == [] then Ok([]) else embed(texts);
    if answer.Err? {
      return Err(answer.error), texts;
    }
    NoVectors(texts, vec);
    r := AttachVectors(files, d, texts, answer.value, vec);
  }

  lemma NoVectors(texts: seq<string>, vec: string -> Vector)
    ensures texts == [] ==> MapVec(texts, vec) == []
  {
  }

  lemma {:induction false} OutcomeCounts(service: Service, ordinal: nat, batch: seq<string>, attempt: nat, maxRetries: nat)
    requires attempt <= maxRetries && Outcome(service, ordinal, batch, attempt, maxRetries).Ok?
    ensures |Outcome(service, ordinal, batch, attempt, maxRetries).value| == |batch|
    decreases maxRetries - attempt
  {
    if service(ordinal, attempt, batch).Failed? {
      OutcomeCounts(service, ordinal, batch, attempt + 1, maxRetries);
    }
  }

  lemma {:induction false} GatheredCounts(service: Service, batches: seq<seq<string>>, ordinal: nat, maxRetries: nat)
    requires Gathered(service, batches, ordinal, maxRetries).Ok?
    ensures |Gathered(service, batches, ordinal, maxRetries).value| == |Flatten(batches)|
    decreases |batches|
  {
    hide Outcome;
    if batches != [] {
      OutcomeCounts(service, ordinal, batches[0], 0, maxRetries);
      GatheredCounts(service, batches[1..], ordinal + 1, maxRetries);
    }
  }

  /** An embedding that succeeds has as many vectors as texts. */
  lemma EmbeddedCounts(service: Service, texts: seq<string>, batchSize: nat, maxRetries: nat, dim: nat)
    requires batchSize > 0 && Embedded(service, texts, batchSize, maxRetries, dim).Ok?
    ensures |Embedded(service, texts, batchSize, maxRetries, dim).value| == |texts|
  {
    hide Gathered, Batches, Flatten;
    GatheredCounts(service, Batches(texts, batchSize), 0, maxRetries);
    BatchesAreTheTexts(texts, batchSize);
  }

  /**
   The same with the embedder of app/embed.py, for any batch size, number of retries,
   concurrency and completion order. Rows come back exactly when the texts are no more
   than allowed and their embedding succeeds; the stored rows of a path are then the
   chunks of its last file, each with the vector of its own text, whatever attempts fail.
   */
  method PrecomputeWithEndpoint(
    files: seq<ParsedFile>, service: Service, batchSize: nat, maxRetries: nat, dim: nat, concurrency: nat,
    orders: nat -> seq<nat>, maxChunks: nat, ghost vec: string -> Vector)
    returns (r: Result<map<string, seq<Row>>, EmbedError>, texts: seq<string>)
    requires batchSize > 0 && forall n: nat :: IsCompletionOrder(orders(n), n) && forall k <- orders(n) :: k < n
    ensures exists d :: ChunkTexts(files, d, texts)
    ensures r.Ok? <==>
      |texts| <= maxChunks && (texts == [] || Embedded(service, texts, batchSize, maxRetries, dim).Ok?)
    ensures r.Ok? && Honest(service, vec) ==> forall path :: RowsOfFiles(files, r.value, path, vec)
  {
    hide WellFormed, ChunksOfFiles, RowsOfFiles, Honest, Faithful, Embedded, MapVec, Contents, AllChunks, Batches, IsCompletionOrder;
    var d, refused;
    d, texts, refused := CollectTexts(files, maxChunks);
    if refused.Some? {
      return Err(refused.value), texts;
    }
    var vectors: seq<Vector> := [];
    if texts != [] {
      var answer := Embed(service, texts, batchSize, maxRetries, dim, concurrency, orders(|Batches(texts, batchSize)|));
      if answer.Err? {
        return Err(answer.error), texts;
      }
      vectors := answer.value;
      EmbeddedCounts(service, texts, batchSize, maxRetries, dim);
      if Honest(service, vec) {
        HonestIsFaithful(service, Batches(texts, batchSize), 0, vec);
        EmbeddingIsFaithful(service, texts, batchSize, maxRetries, dim, vec);
      }
    }
    NoVectors(texts, vec);
    r := AttachVectors(files, d, texts, vectors, vec);
    assert r.Ok? && Honest(service, vec) ==> vectors == MapVec(texts, vec);
  }

  lemma ContentsLength(chunks: seq<Chunk>)
    ensures |Contents(chunks)| == |chunks|
  {
  }

  /** The rows of a path are its chunks, each with the vector of its own text. */
  lemma PathHasRows(d: PerFile, vectors: seq<Vector>, path: string, vec: string -> Vector)
    requires WellFormed(d) && vectors == MapVec(Contents(AllChunks(d, |d.order|)), vec)
    requires |vectors| == |AllChunks(d, |d.order|)|
    ensures var byPath := Sliced(d, vectors, |d.order|);
      && (path in byPath <==> path in d.chunksOf && d.chunksOf[path] != [])
      && (path in byPath ==> ChunkView(byPath[path]) == d.chunksOf[path] && OwnVectors(byPath[path], vec))
  {
    hide RowsAt, OwnVectors, ChunkView, MapVec, AllChunks, Sliced, Contents;
    var n := |d.order|;
    if path in d.chunksOf {
      var k :| 0 <= k < n && d.order[k] == path;
      SlicedAt(d, vectors, n, k);
      AllChunksNext(d, k);
      AllChunksGrow(d, k + 1, n);
      SliceHasOwnVectors(AllChunks(d, n), AllChunks(d, k), d.chunksOf[path], vectors, vec);
    } else {
      SlicedPaths(d, vectors, n);
      assert d.order[..n] == d.order;
    }
  }
}
