# Proofs about a multi-branch code index and its search

The system indexes Git repositories into Postgres and answers code searches over
the result. This project models its five cores and proves what they promise:

- **The store** (`Tables`, `IndexStore`, `CorpusHistory`, `SkipSeam`, `Job`, `Ingest`). One row per
  (repo, path, content sha) carries the set of branches that contain it. A run over
  one branch skips files it already carries, joins rows other branches wrote, and
  writes the rest in batches, behind a gate on the semantics version of the
  extraction. `IndexStore.Store` is the object whose maps these statements change in
  place; `Tables` gives each statement its meaning and says, row by row, what a run
  must leave behind; `CorpusHistory` proves what every history of runs, retirements,
  purges and deployments keeps, `SkipSeam` what a branch serves that is not indexed
  again; `Job` covers a whole run with concurrent workers and its reconciliation
  checkpoint.
- **The extraction pool** (`ExtractStream`, `PoolSupervisor`). A generator that pulls
  ahead under two budgets, batches files for worker processes and still yields a
  plain in-order map; and a supervisor that many threads report breaks to.
- **The query language** (`Scanner`, `Parser`, `Normalize`, `Acceptance`,
  `QueryPrint`, `QueryRoundTrip`, `Compiler`, `RowMatch`, `SemanticFilters`, `SemanticResidual`, `BranchAtom`,
  `Permalinks`). A scanner, a recursive-descent parser, the normalisation of its tree, the predicate a
  tree compiles to, the split of a semantic query, and the way from a search hit back
  to its file. `RowMatch` says what a compiled search means on a row. `ScanLocality`,
  `Lexemes`, `GrammarLocality` and `QueryPaths` hold what the proofs need about lexemes and
  tokens that are put together, and about where the leaves of a tree stand.
- **Search pages and response budgets** (`Pagination`, `SearchEnvelope`, `ResponseTrim`,
  `ReplyText`, `FilePaging`, `JsonText`, `Highlights`, `Utf8`, `Lines`, `Cursors`). Cursor traversal
  under three caps, the byte-budget trim on top of it, file pages that rebuild the file, and highlighted
  ranges in UTF-8.
- **Extraction and chunks** (`SymbolWalk`, `UseTrees`, `Chunks`, `Embedding`). The
  two-stack tree walk, the descent into Rust use trees, line-aligned chunks, and
  vectors that stay with their own text.

Conventions. A method follows a loop or an object of the original and is proved
equal to a function, or to a stated property; the theorems are about that function.
Clocks, worker outcomes, the database's regular expressions, tree-sitter trees and
archive members are parameters that may take any value. A transaction either
commits or leaves the store as it was. `hide` in a body keeps a definition out of a
proof that does not need it.

## Where the code promises more than it gives

Each of these is proved, with the exact condition or with a counterexample.

- The argument at indexer/store.py:260-274 needs the semantics version never to
  decrease between deployments. `CorpusHistory.RunKeepsVersionsExactlyWhen` gives the
  exact guard for one run; `CorpusHistory.RollbackServesOlderRows` is a rollback and
  roll-forward that breaks the promise for good.
- indexer/store.py:278-286 calls `size` a function of path and content. It is the
  archive's declared length, while the content had NUL characters removed
  (indexer/ingest.py:337-348): `Ingest.SizeIsLengthExactlyWhen`,
  `Ingest.SizeIsNoFunctionOfContent`. The refinement theorems therefore leave `size` out.
- indexer/store.py:825-838 argues that a run without indexable files heals itself
  because its stamp mismatches. It does not when the branch was already at the running
  version: the seam at indexer/job.py:1248-1260 then skips a branch that still serves
  its older head. `SkipSeam.SkippedServesHeadExactlyWhen` has the exact condition,
  `SkipSeam.EmptiedHeadIsSkippedStale` an instance.
- A trim can resume behind a candidate grep never scanned (app/main.py:375-386): page 1
  lists symbols of files that grep, cut short, did not get to. Which matches a reader of
  trimmed pages sees is exact in `SearchEnvelope.TrimmedTraversalShowsEachMatch`;
  `SearchEnvelope.SymbolPastCursorLosesAMatch` is a lost one. Definitions that the trim
  of page 1 drops are on no page (`SearchEnvelope.DroppedSymbolsNeverReturn`), and a
  response without files that is over the budget loses its cursor
  (`SearchEnvelope.EmptyPageEndsTraversal`).
- The search trim measures before it flags the truncation and recounts
  (app/main.py:351-374), so the kept files are not always the maximal prefix that
  app/main.py:318-326 promises. `ResponseTrim.TrimKeepsMostExactlyWhen` has the exact
  condition on the response before the trim; instances are
  `ResponseTrim.TrimGivesUpFittingFiles` and `ResponseTrim.FlaggedKeepsTooFew`. It attaches the cursor after the last measurement:
  `ResponseTrim.SentFitsExactlyWhen`, `ResponseTrim.CursorExceedsBudget`.
- A scope under two negations opts out of the default branch
  (app/query/compiler.py:88-115) but is not collected for permalinks
  (app/service.py:166-172): `Permalinks.DoublyNegatedScopeMisses`. A `commit:` under
  `OR` has the same effect (app/service.py:342-346): `Permalinks.CommitUnderOrMisses`.
- The `branch` parameter is promised to be sugar for the `branch:` atom
  (app/main.py:643-650), but it is appended before anything is parsed
  (app/main.py:761-762). It is read as that atom exactly when the query scans by itself
  and the branch does not end in a backslash: `BranchAtom.BranchReadsBackExactlyWhen`.
  A query with an open quote can be accepted only because the atom closes the quote, and
  is then held to no branch: `BranchAtom.OpenQuoteSwallowsTheAtom`,
  `BranchAtom.OpenQuoteEscapesTheBranch`. Where it is read, the atom binds only to the
  last arm of a top-level `OR`, and a query that lacks the operand of its last `or` gets
  the atom for one: `BranchAtom.AppendedQueryMeans`, `BranchAtom.OffBranchMatchesExactlyWhen`.
- With no batch budget the pooled stream yields nothing (indexer/extract_pool.py:534-538):
  `ExtractStream.StreamPooled` says so, and `ExtractStream.ZeroBudgetLosesFiles` is an instance.
- `str.strip` removes more than the scanner's whitespace, so a semantic query can
  leave a residual that holds a filter: `SemanticResidual.SplitIsIdempotentExactlyWhen`,
  `SemanticResidual.SplitNotIdempotentOnOtherSpace`.

## Model

| member | source | states |
|---|---|---|
| IndexStore.Store.IndexRepo | indexer/store.py:180-480 | a run whose source raises leaves every table as it was; any other run leaves every row as `Tables.Indexed` says and reports how many files it saw and how many rows it swept; a committed run of the default branch makes it the repo's default, any other run leaves a known repo's as it was and enters a new repo without one |
| IndexStore.Store.WriteRows | indexer/store.py:318-440 | everything before the sweep: the upserts of the repo and branch rows return the compare-and-set baseline, and the file rows are those of the written classes |
| IndexStore.Store.WriteItems | indexer/store.py:368-429 | the classification loop: wherever batches end, exactly the changed files are written, exactly the membership-only files are set aside, and all are seen |
| IndexStore.Store.UpsertRepoBranch | indexer/store.py:329-340 | the branch row is inserted or found, and its old stamp is the baseline |
| IndexStore.Store.Deduplicate | indexer/store.py:541-560 | of several files with one key the last one in the batch wins |
| IndexStore.Store.FlushFileBatch | indexer/store.py:483-648 | one batch rewrites its rows and keeps the branches they had |
| IndexStore.Store.SweepMembership | indexer/store.py:740-793 | the branch leaves the rows the run did not see, rows this empties are deleted, and a run that saw nothing sweeps nothing |
| IndexStore.Store.StampRepoBranch | indexer/store.py:796-862 | compare-and-set on the baseline; a run that parsed nothing does not advance the version |
| IndexStore.Store.ReconcileRetiredBranches | indexer/store.py:865-966 | exactly the retired branches leave one repo, with exact counts; unusable entries are ignored |
| IndexStore.Store.StripBranches | indexer/store.py:939-952 | stripping branches from rows and deleting the rows it empties is one map |
| IndexStore.Store.CheckDesired | indexer/store.py:1036-1043 | a keep-set is refused when it is empty or has an entry that is no non-empty string |
| IndexStore.Store.ReconcileRemovedRepos | indexer/store.py:969-1057 | exactly the repos outside the keep-set go, with their branches and rows; a refused keep-set changes nothing |
| Tables.BatchBoundariesDoNotShow | indexer/store.py:390-417 | however a list of files is cut into batches, and wherever its duplicates fall, the stored rows are the same |
| Tables.UpsertConcat | indexer/store.py:541-593 | two flushes are one flush of both batches |
| Tables.StatementsIndex | indexer/store.py:344-459 | the statements of a run in their order leave each row, seen or not, as the declarative outcome says |
| Tables.IndexedLeaves | indexer/store.py:300-480 | a committed run in plain terms: rows hold what they held or a file of the run under its head, every file of the run has a row on its branch, and only that branch is stamped, with the head and, unless nothing was parsed, the version |
| CorpusHistory.HistoriesStaySound | indexer/store.py:255-274 | over every history of runs, empty runs, roll-backs, retirements, purges and forward deployments: every row carries a branch, carried branches are registered, no branch is stamped newer than a row it carries, a branch carries one content version of a path, and each row holds what the extractor of its version gives |
| CorpusHistory.DefaultBranchIsOfLastDefaultRun | indexer/store.py:304-325 | in every history a repo is stored exactly if a run of it committed since it was last purged, and its default branch is that of the last of these runs that was on a default branch |
| CorpusHistory.CurrentBranchServesCurrentRows | indexer/store.py:260-274 | a branch stamped with the running version serves only rows that version extracted |
| CorpusHistory.RunKeepsVersionsExactlyWhen | indexer/store.py:651-681 | a run keeps the version invariant if and only if it rewrites no row that a sibling branch stamped newer carries |
| CorpusHistory.RollbackServesOlderRows | indexer/store.py:260-274 | rolling back and forward again leaves a branch stamped current on a row whose extraction is the older version's and not its own, which its gate then skips |
| CorpusHistory.DeltaRefinesFull | indexer/store.py:367-429 | from a sound corpus the delta path ends with the rows, branches, symbols and edges of writing every file in full |
| CorpusHistory.DeltaRefinesFullInEveryHistory | indexer/store.py:367-429 | the same after every history |
| CorpusHistory.ClosedGateWritesInFull | indexer/store.py:251-257 | with the gate closed every file seen is written in full |
| CorpusHistory.RunSetsExactlyItsBranch | indexer/store.py:740-793 | after a run that saw files the branch carries exactly those, every other branch what it carried, and no row of the repo is without a branch |
| CorpusHistory.EmptyRunWritesNothing | indexer/store.py:813-856 | a run that parsed nothing changes no row and does not advance the version stamp |
| CorpusHistory.RunKeepsStructure | indexer/store.py:344-480 | a run keeps foreign keys, non-empty membership and registration |
| CorpusHistory.RunKeepsOneVersion | indexer/store.py:740-793 | a run over a tree without duplicate paths leaves one content version of a path per branch |
| CorpusHistory.RunKeepsSound | indexer/store.py:255-274 | one run keeps the whole invariant |
| CorpusHistory.RetiringRemovesExactly | indexer/store.py:865-966 | retirement removes the named branches, nothing else, and finds nothing to do a second time |
| CorpusHistory.RetiringKeepsSound | indexer/store.py:865-966 | retirement keeps the invariant |
| CorpusHistory.PurgingKeepsSound | indexer/store.py:969-1057 | a purge keeps the invariant |
| Job.SnapshotNamesRetiredBranches | indexer/job.py:576-590 | for every interleaving of the workers, the stamps read before the fan-out name the retired branches that a read after it would name |
| Job.FanOutRegistry | indexer/job.py:576-590 | a fan-out only adds registry rows, exactly those of the branches it indexed |
| Job.FanOutOnlySweepsWhatItIndexed | indexer/job.py:576-612 | whatever fails, before or behind its commit, a fan-out takes a branch off rows only where it committed a run of that branch |
| Job.TallyBranches | indexer/job.py:549-558 | the counters are zero exactly when no branch conflicted, and none failed |
| Job.Drain | indexer/job.py:536-575 | draining the workers decides for reconciliation exactly when every repo came back clean and whole |
| Job.CleanExactlyWhen | indexer/job.py:746-780 | the four conjuncts of the gate hold exactly when every worker returned and every repo is complete and clean |
| SkipSeam.SeamStaysSound | indexer/job.py:1248-1260 | in every history whose runs index their heads, a branch stamped with a head and the running version carries exactly the files of that head, unless the head has none |
| SkipSeam.SkippedServesHeadExactlyWhen | indexer/job.py:1248-1260 | a skipped branch serves the files of its head, extracted by the running version, if and only if the head has an indexable file or the branch carries no row |
| SkipSeam.SkippingIsIndexing | indexer/job.py:1248-1260 | running index_repo instead of skipping would change no row and no stamp |
| SkipSeam.EmptiedHeadIsSkippedStale | indexer/store.py:807-838 | a head without indexable files is stamped and then skipped while the branch still serves the head before it |
| Job.RetirePhase | indexer/job.py:840-852 | the retired branches of the repos go one repo after the other until a primitive raises; nothing is undone, and the counters say how many rows are gone |
| Job.Reconcile | indexer/job.py:811-915 | without an error the purge is withheld exactly when it would remove more than half of the stored repos, and otherwise leaves the desired ones; with an error the store stands after the retirements before the primitive that raised; the counters and the purged names say exactly what was removed |
| Job.PurgePhase | indexer/job.py:852-911 | the purge is withheld exactly when it would remove more than half of the stored repos; it never is when it removes none, and after it at least half of them are left |
| Job.PurgePassesExactlyWhen | indexer/job.py:870-871 | the shrink guard passes exactly when at least half of the stored repos stay |
| Job.FailedAndClean | indexer/job.py:549-590 | a run fails exactly if a worker raised or a branch failed, and is clean exactly if every repo came back complete without a failed or conflicted branch |
| Job.FinishRun | indexer/job.py:591-692 | an unclean run leaves the store at the join and exits 1 exactly on a failure; a clean one without errors exits 0 exactly if at least half of the stored repos are desired, and is then reconciled in full; exit 1 keeps every repo |
| Job.CleanRunReachesDesiredState | indexer/job.py:811-915 | after a clean run that withholds nothing, stored repos are the desired ones, each registry is the resolved branches, and every row is carried by some of them and no other |
| Job.ResolvedAreRegistered | indexer/branches.py:58-106 | every branch a clean repo resolved is registered at the join |
| Ingest.CheckMember | indexer/ingest.py:247-303 | the checks that fail a branch, in order; a member passes exactly when none applies |
| Ingest.Select | indexer/ingest.py:305-349 | an eligible member claims its path even if it turns out to be binary or undecodable |
| Ingest.IterTarSourceFiles | indexer/ingest.py:198-377 | a pass succeeds exactly on a whole, non-empty archive without a fatal member, and then yields, in order, the first eligible member of each path if that one is text; before failing it has yielded those in front of the first fatal member |
| Ingest.PassesExactlyWhen | indexer/ingest.py:247-303 | members pass exactly if each has a relative name without `..` below one top-level directory, no link that leaves it, and lies, with the bytes up to it, within 2 GB |
| Ingest.FilesExactly | indexer/ingest.py:305-349 | a file is yielded for exactly each regular member of at most a megabyte, outside `.git`, first at its path, without a NUL in its first 8 KiB and decodable; with its declared size and its text |
| Ingest.NameIsTopAndPath | indexer/ingest.py:300-301 | a name is its top-level directory and, behind a slash, the path below it |
| Ingest.TopDirectoryDoesNotShow | indexer/ingest.py:247-349 | two archives that differ only in the name of their top-level directory fail at the same members and yield the same files, whose paths are what is below it |
| Ingest.EscapeIsLeavingTheRoot | indexer/ingest.py:178-195 | a link target is refused exactly when walking it from the link leaves the archive root at some step |
| Ingest.SizeIsLengthExactlyWhen | indexer/ingest.py:337-348 | for a member whose declared size is the length of its data, the stored size is the length of the stored content if and only if its text holds no NUL |
| Ingest.SizeIsNoFunctionOfContent | indexer/ingest.py:337-348 | a NUL behind the sniff window gives two files of one path, one content and two sizes |
| Ingest.FilesHaveDistinctPaths | indexer/ingest.py:313-318 | no two files of a pass share a path |
| Ingest.ArchivesHaveDistinctPaths | indexer/ingest.py:313-318 | so the items of a run meet what the history theorems ask of them |
| ExtractStream.StreamPooled | indexer/extract_pool.py:449-595 | every file in source order with its own extraction; each qualifying file in exactly one batch, of at most 2000 files and below the byte limit but for its last file; whenever a file is yielded, the files pulled are within `max(1, 2 * n_processes)` batches by count, and by bytes but for the last; a prefix of that if a worker dies; nothing at all without a batch budget |
| ExtractStream.Next | indexer/extract_pool.py:533-585 | one step yields the next file, keeps both look-ahead budgets, and finishes only when all files are out |
| ExtractStream.FlushBatch | indexer/extract_pool.py:484-506 | submitting gives every slot of the batch its row, and leaves none behind |
| ExtractStream.AssignHolder | indexer/extract_pool.py:499-502 | each slot points at the row of the batch that holds its own file |
| ExtractStream.PullOne | indexer/extract_pool.py:508-530 | one file becomes one slot; the end of the source submits what is left |
| ExtractStream.PullAhead | indexer/extract_pool.py:534-539 | pulling stops at the byte budget plus one file, at the slot budget, or at the end |
| ExtractStream.SubmitFront | indexer/extract_pool.py:553-554 | the front slot is never left without a batch |
| ExtractStream.Answer | indexer/extract_pool.py:558-585 | the front slot always has an answer or a future, so the assertion there cannot fail |
| ExtractStream.ZeroBudgetLosesFiles | indexer/extract_pool.py:472-474 | with a batch budget of zero a file is lost |
| PoolSupervisor.ExtractionPool.constructor | indexer/extract_pool.py:356-365 | fewer than two processes mean no executor |
| PoolSupervisor.ExtractionPool.Current | indexer/extract_pool.py:371-373 | the executor and its generation, read together |
| PoolSupervisor.ExtractionPool.HandleBroken | indexer/extract_pool.py:375-417 | a stale or late report changes nothing; a fresh one rebuilds, or latches when the budget is spent; a rebuild that cannot create its executor raises, uses up a generation and leaves the broken executor in place |
| PoolSupervisor.ExtractionPool.Close | indexer/extract_pool.py:598-613 | shutting down latches and takes the executor out of service |
| PoolSupervisor.RunsStaySound | indexer/extract_pool.py:356-417 | under every interleaving generation equals rebuilds, at most three, and every executor is current, awaiting disposal or disposed of, exactly one of these, once |
| PoolSupervisor.LatchingIsPermanent | indexer/extract_pool.py:375-417 | once latched, no executor returns and none is created |
| PoolSupervisor.LatchesExactlyWhen | indexer/extract_pool.py:375-417 | each of the first three breaks acted upon is a rebuild; the pool gives up on the fourth or at its shutdown, and at no other time |
| PoolSupervisor.ExtractionPool.DisposeOf | indexer/extract_pool.py:412-417 | the executor taken out of service is disposed of after the lock is released |
| PoolSupervisor.ExecutorOfGeneration | indexer/extract_pool.py:375-417 | as long as no rebuild fails, each generation has an executor of its own |
| PoolSupervisor.EachBreakActedOnOnce | indexer/extract_pool.py:375-417 | of all reports of one generation at most one is acted upon |
| PoolSupervisor.ShutdownDisposesAll | indexer/extract_pool.py:598-613 | after shutdown every executor ever created has been disposed of exactly once |
| Scanner.ReadDelimited | app/query/parser.py:219-259 | a delimited literal is read as its grammar says, or refused at its start |
| Scanner.ReadBodyFrom | app/query/parser.py:226-237 | the loop reads the body up to the closing delimiter, escapes resolved |
| Scanner.FieldValue | app/query/parser.py:262-272 | quoted, slashed or bare |
| Scanner.EmitField | app/query/parser.py:275-294 | only supported fields with a value give a token; a commit token holds a hash of 7 to 40 hex digits |
| Scanner.ScanToken | app/query/parser.py:302-355 | one lexeme of each kind |
| Scanner.ScanWord | app/query/parser.py:332-355 | a field if a known name and a colon start the word, otherwise a bare word |
| Scanner.Tokenize | app/query/parser.py:297-356 | the scan loop yields the tokens of the text |
| ScanLocality.LexemeIsLocal | app/query/parser.py:297-356 | a lexeme reads the same in front of any text that starts like its old neighbour, with whitespace, or not at all |
| ScanLocality.OrIsReadExactlyWhen | app/query/parser.py:346-355 | an `or` is read exactly where the text starts with that word, in any case |
| ScanLocality.WordReadsAsItself | app/query/parser.py:346-355 | a word that opens no literal, negation or field and is no `or` is a substring, letter for letter |
| ScanLocality.MinusNegates | app/query/parser.py:326-332 | a minus negates exactly in front of something that is no whitespace and no closing parenthesis |
| ScanLocality.BareFieldReads | app/query/parser.py:262-295 | a field with a bare value filters by what the field makes of it |
| ScanLocality.FieldFiltersByItsValue | app/query/parser.py:275-295 | the value as it is; for `commit:` the hash in lower case |
| Lexemes.ScanHasShapes | app/query/parser.py:297-356 | whether a text scans, and to what kinds and values, does not depend on where it stands |
| Lexemes.ShapesConcat | app/query/parser.py:297-356 | a text that scans keeps its tokens in front of a gap |
| Parser.Parser.ParseOr | app/query/parser.py:419-432 | the method moves through the tokens, and fails, as the grammar says, with the nesting it started with |
| Parser.Parser.ParseAnd | app/query/parser.py:434-443 | the same for a conjunction |
| Parser.Parser.ParsePrimary | app/query/parser.py:445-480 | the same for a primary |
| Parser.Parser.ParseGroup | app/query/parser.py:460-474 | the same for a parenthesised group |
| Parser.ResolveCaseFlag | app/query/parser.py:557-563 | the last case token decides |
| Parser.LastCaseDecides | app/query/parser.py:557-563 | matching heeds case exactly if some `case:yes` has no other `case:` behind it |
| Normalize.FlattenAll | app/query/parser.py:504-521 | nested operators of one kind are spliced |
| Normalize.FinalizeShape | app/query/parser.py:524-554 | normalisation keeps the terms and their order, never nests an operator in itself, leaves at least two children, yields nothing exactly where there is no term, and fails exactly on a negation of nothing |
| Normalize.FinalizeKeepsValue | app/query/parser.py:524-554 | normalisation keeps the three-valued meaning of the tree, case operands erased |
| Normalize.ParseQuery | app/query/parser.py:578-592 | the whole of `parse` |
| QueryPrint.LiteralReadsBack | app/query/parser.py:219-259 | an escaped literal reads back as its value if and only if the value does not end in a backslash |
| QueryPrint.NodeReads | app/query/parser.py:297-356 | scanning a printed tree yields the tokens of its shape, whatever follows |
| ScanLocality.FieldReadsExactlyWhen | app/query/parser.py:275-294 | a field is read exactly if it has a value, which is yes or no for `case:` and 7 to 40 hex digits for `commit:`; a hash is kept in lower case and any other value as it is |
| ScanLocality.RefusalPointsAtItsCause | app/query/parser.py:219-294 | the column of a scan error is that of a literal that does not end or of a field that is refused, and the message says which |
| Acceptance.ParsesExactlyWhen | app/query/parser.py:411-592 | a query parses if and only if it scans and a machine that reads each token once accepts: operands where they are due, groups closed, at most 200 groups and negations open at once, a term in the query and under every negation |
| Acceptance.TermsStayInOrder | app/query/parser.py:411-592 | the terms of a parsed query are those its tokens stand for, none lost, repeated or moved |
| QueryRoundTrip.PrimaryOfShape | app/query/parser.py:445-480 | the tokens of a printed tree parse to it as one primary, unless it nests deeper than the limit |
| QueryRoundTrip.ParseInvertsPrint | app/query/parser.py:578-592 | for every canonical tree without values that end in a backslash, `parse` of its printing is the tree if and only if it nests at most 200 deep |
| QueryRoundTrip.ParseIsCanonical | app/query/parser.py:578-592 | what `parse` yields is flat, carries the query's one case flag, and has proper filter values |
| QueryRoundTrip.ReparseIsIdentity | app/query/parser.py:578-592 | printing a parsed query and parsing it again gives the same tree, if and only if its nesting allows |
| QueryRoundTrip.LeftoverIsParenthesis | app/query/parser.py:583-588 | what a whole query leaves behind is a closing parenthesis; the other message is never raised |
| Compiler.LikeIsContains | app/query/compiler.py:168-170 | the escaped LIKE pattern matches exactly the texts that contain the literal |
| Compiler.LowerKeepsValue | app/query/compiler.py:197-257 | the lowered predicate has the three-valued meaning of the tree, atom by atom |
| Compiler.NnfAgrees | app/query/compiler.py:197-257 | the lowered predicate agrees with its negation normal form on every three-valued assignment |
| Compiler.ScopeIsPositiveLiteral | app/query/compiler.py:88-115 | a query opts out of the default branch if and only if that normal form has a positive branch or commit literal |
| Compiler.GlobalCaseIsTheFlag | app/query/compiler.py:173-194 | the flag derived from the tree is the query's flag if there is a content term, and otherwise insensitive |
| RowMatch.LowerMeans | app/query/compiler.py:197-246 | each term is lowered to an atom that means the same on every row: text and regex terms read the content under their own flag, `repo:` the name in any case, `file:` and `sym:` path and symbols under the query's flag, `lang:` the trimmed, lower-cased language, `branch:` and `commit:` membership and heads |
| RowMatch.SearchMeans | app/query/compiler.py:134-166 | the compiled search on a row has the three-valued value of the query, term by term; without a scope under an even number of negations the row must also be on its repo's default branch, or `HEAD` |
| RowMatch.OptsOutExactlyWhen | app/query/compiler.py:88-115 | a query opts out of the default branch exactly when a scope stands under an even number of negations |
| RowMatch.PatternShows | app/query/compiler.py:200-204 | a LIKE or ILIKE pattern matches exactly the texts that contain the literal, as it is or in any case |
| PythonText.StripExactly | app/query/compiler.py:216-217 | stripping takes the whitespace off both ends, all of it and nothing else |
| SemanticFilters.FieldOfInvertsTheTable | app/query/semantic_filters.py:56-66 | field names come from the parser's own table |
| SemanticFilters.SpansAscend | app/query/semantic_filters.py:136-170 | tokens stand in order, without overlap, inside the text |
| SemanticFilters.FieldSpanIsExact | app/query/semantic_filters.py:173-183 | reading a field again finds exactly the range the scanner consumed for it |
| SemanticFilters.PiecesAreSegments | app/query/semantic_filters.py:119-170 | the pieces between the cuts are the stretches of prose between the filters |
| SemanticFilters.Excise | app/query/semantic_filters.py:119-133 | the loop cuts the spans out and joins the stripped pieces |
| SemanticFilters.SplitSemanticQuery | app/query/semantic_filters.py:136-170 | filters in order, the residual, or the first unsupported atom |
| SemanticFilters.SplitsExactlyWhen | app/query/semantic_filters.py:136-170 | a query is split exactly if it scans and has no `sym:`, `commit:`, `case:`, regex or negation, and each list has exactly the values of its own field |
| SemanticFilters.SplitNamesTheFirst | app/query/semantic_filters.py:136-170 | a query that scans and is refused is refused for its first unsupported atom, by its name and column |
| SemanticResidual.ResidualIsTheProseExactlyWhen | app/query/semantic_filters.py:119-170 | the residual scans to exactly the tokens that are no filters if and only if stripping takes no character of a word off an end of a piece (where the first thing it bares is no quote) |
| SemanticResidual.SplitIsIdempotentExactlyWhen | app/query/semantic_filters.py:119-170 | the residual holds no filter and is its own residual if and only if no stripped piece that directly follows whitespace of Python's alone starts like a field, a regex or a negation (where the first that is bared is no quote) |
| SemanticResidual.PlainQueriesSettle | app/query/semantic_filters.py:119-170 | both hold of every query whose only whitespace is space, tab and newline |
| SemanticResidual.SplitNotIdempotentOnOtherSpace | app/query/semantic_filters.py:119-133 | a leading carriage return leaves a filter in the residual |
| BranchAtom.BranchReadsBackExactlyWhen | app/main.py:643-650 | for every query and branch: the appended query holds `branch` with the branch's own name as a token at the atom's column if and only if the query without its leading whitespace scans and the name is not empty and does not end in a backslash; behind a query that scans, any other name refuses the whole |
| BranchAtom.OpenQuoteSwallowsTheAtom | app/main.py:643-650 | a query that is an open quote does not scan, and the appended one is a literal up to the atom's quote with the branch's name as query text behind it |
| BranchAtom.OpenQuoteEscapesTheBranch | app/main.py:761-762 | the query `"foo` is refused alone; with the branch `main` it is accepted as two substrings and no branch filter |
| BranchAtom.AppendedTokens | app/main.py:643-650 | the tokens of a query that scans stay, columns and all, and one branch token is added |
| GrammarLocality.OrExprCompleted | app/query/parser.py:419-480 | tokens that parse to the end with one operand more are none, parse to the end themselves, or do so without a last `or` |
| GrammarLocality.AtomJoinsLastArm | app/query/parser.py:419-480 | behind a complete parse the atom joins the last arm of the top-level disjunction, and no other |
| GrammarLocality.AtomIsOwnArm | app/query/parser.py:419-480 | behind a complete parse and an `or` the atom is an arm of its own |
| BranchAtom.AppendedQueryMeans | app/main.py:643-650 | behind a query that scans: `parse` accepts the appended query if and only if the query is empty, parses as a whole, or lacks only the operand of its last `or`; its value is that of the free arms, or of the last arm held to the branch, or of the branch alone |
| BranchAtom.AppendedIsScoped | app/main.py:643-650 | every accepted one of these opts out of the default branch |
| BranchAtom.OffBranchMatchesExactlyWhen | app/main.py:643-650 | a row off the branch still matches the compiled query if and only if an arm that the atom does not join matches it |
| Permalinks.CollectsBranchExactlyWhen | app/service.py:154-188 | a branch is collected exactly when its filter stands under conjunctions and disjunctions only |
| Permalinks.CollectsCommitExactlyWhen | app/service.py:191-219 | a commit is collected exactly when its filter stands so |
| Permalinks.ScopeAtoms | app/query/compiler.py:118-131 | branch, commit and default-branch atoms read a stored row's branches, heads and repo |
| Permalinks.SelectPermalinkBranch | app/service.py:245-267 | none exactly without filters or branches; otherwise the smallest filtered branch of the row, or the smallest of its branches if none is filtered |
| Permalinks.ScopeBranch | app/service.py:326-347 | branch filters come first; without them the smallest branch of the row that is a resolved head, if there is one |
| Permalinks.Least | app/service.py:264-266 | the lexicographically smallest element |
| Permalinks.LookupIsUnique | app/service.py:931-946 | at most one row answers a lookup |
| Permalinks.PermalinkNamesABranchExactlyWhen | app/service.py:326-347 | a permalink names a branch exactly when the query scopes to some branch, or to a commit that is a head of the row |
| Permalinks.PermalinkFindsTheRow | app/service.py:910-946 | opening a permalink finds the row, alone, if and only if the query scopes to a branch, or to a commit that is a head of the row, or the row is on the default branch |
| Permalinks.DoublyNegatedScopeMisses | app/service.py:166-172 | a search for text under a doubly negated scope lists rows whose permalink misses them |
| Permalinks.CommitUnderOrMisses | app/service.py:342-346 | so does one with a commit under OR that resolves to some head |
| Permalinks.HitRoundTrip | app/service.py:326-347 | in every corpus a history reaches, for queries whose scopes stand under at most one negation and whose commits, if no branch is named, are conjuncts, `get_file` at a hit selects exactly the hit's content version |
| Permalinks.ConjunctionsArePlain | app/service.py:326-347 | every conjunction of terms and negated terms is such a query |
| Pagination.GrepPage | app/search/grep.py:510-652 | why a page stopped, what it reports and where it resumes, for any cap and any deadline |
| Pagination.ScanRows | app/search/grep.py:571-631 | rows are consumed one by one while the deadline and the byte cap admit them; a file that trips the deadline while scanned is consumed and dropped whole |
| Pagination.ByteCapIsABound | app/search/grep.py:592-608 | the byte cap, which counts characters before it encodes, trips only where the bytes exceed it, and a page exceeds it by no more than encoding adds to its last row |
| Pagination.OutcomeIsUnique | app/search/grep.py:510-652 | the rows, the caps and the clock determine the page: what it shows, why it stopped and where it resumes |
| Pagination.ServePage | app/search/grep.py:465-652 | every page of a paginating caller advances |
| Pagination.GrepPageIsSound | app/search/grep.py:510-652 | a page of a paginating caller shows what it scanned to the end, resumes behind what it consumed, and is whole if it is not flagged |
| Pagination.ResumeAtKey | app/search/grep.py:510-514 | seeking behind a candidate's key resumes right behind it |
| Cursors.TextLessExactlyWhen | app/search/grep.py:498-500 | texts are ordered by prefix or by the first character in which they differ |
| Pagination.TraversalIsContiguous | app/search/grep.py:510-516 | following the cursors consumes candidates in key order without gap or repeat |
| Pagination.EndMeansExhausted | app/search/grep.py:536-550 | a traversal that ends without cursor and truncation consumed every candidate |
| Pagination.EachMatchShownOnce | app/search/grep.py:571-652 | each consumed file is shown by exactly one page, with all its matches, unless the page gave up on it for lack of time or, being trimmed, skipped it |
| Highlights.MergeSpans | app/search/grep.py:378-388 | the one-pass merge |
| Highlights.MergedIsMinimalCover | app/search/grep.py:378-388 | merged spans are sorted, strictly apart, and cover exactly what the given spans cover |
| Highlights.CharToByteRanges | app/search/grep.py:391-409 | the one-pass conversion to byte ranges |
| Highlights.RangeSlicesSpan | app/search/grep.py:391-409 | each byte range cuts the encoding of its span out of the encoded line |
| Highlights.ExtractLineMatches | app/search/grep.py:412-461 | the line loop |
| Highlights.MatchesArePromised | app/search/grep.py:412-461 | reported lines increase, and each is a line of the content, without its carriage return, with ranges that slice exactly the highlighted characters |
| Highlights.EveryHighlightedLineIsReported | app/search/grep.py:412-461 | every line some pattern highlights is reported |
| Highlights.ScanReportsTheMatches | app/search/grep.py:412-461 | the lines are the content cut at its newlines; reported are exactly those in which some pattern matches a character, under their numbers, without their carriage return, with the byte ranges of the characters matched |
| Utf8.DecodeInvertsEncode | indexer/ingest.py:331-335 | strict decoding inverts encoding |
| Utf8.EncodeInvertsDecode | indexer/ingest.py:331-335 | and what decodes is the encoding of what it decodes to |
| Utf8.CharRoundTrip | app/search/grep.py:391-409 | a character is decoded from its encoding as section 3 of RFC 3629 lays out |
| SearchEnvelope.MergeLegs | app/service.py:691-753 | the loop that folds the symbols into grep's files yields the listing |
| SearchEnvelope.MergeKeepsContent | app/service.py:661-753 | merging neither loses, adds nor reorders a content match, lists no file twice, and lists each file's matches by line |
| SearchEnvelope.ListingShowsHits | app/service.py:685-712 | the file list shows exactly the definitions that the symbol leg found |
| SearchEnvelope.ByLineIsStable | app/service.py:758-761 | matches of a file end up by line, symbols without a line last, and those of one line keep their order |
| SearchEnvelope.TrimmedPageIsSound | app/main.py:340-388 | a trimmed page shows what grep scanned for it up to its last file, and resumes behind that file |
| SearchEnvelope.TrimSkipsExactlyWhen | app/main.py:375-386 | it resumes behind a candidate that was not scanned exactly when its last file lies at or behind that candidate |
| SearchEnvelope.SeenExactly | app/main.py:403-446 | a response within its budget is untouched; one over it is flagged, and shows a first part of its files with the cursor of the last, or no cursor without files |
| SearchEnvelope.SeenPagesTraverse | app/main.py:340-388 | the pages a reader sees who follows the cursors, trimmed or not, are a traversal |
| SearchEnvelope.TrimmedTraversalShowsEachMatch | app/main.py:340-388 | of every consumed candidate with matches exactly one page shows all of them, unless and only unless its grep gave up on it, or page 1 was trimmed to a file at or behind it before grep got to it |
| SearchEnvelope.OvertakenOnlyWhenCut | app/service.py:644-655 | the latter happens only when grep was cut short by its byte cap or its match budget |
| SearchEnvelope.SymbolPastCursorLosesAMatch | app/main.py:375-386 | under a budget of 1024 bytes the trim leaves two of three files, and the match of the second is lost |
| SearchEnvelope.DroppedSymbolsNeverReturn | app/service.py:644-655 | a definition that the trim of page 1 drops is on no page |
| SearchEnvelope.EmptyPageEndsTraversal | app/main.py:345-352 | a response without files that is over the budget loses the cursor, and nothing behind it is shown |
| ResponseTrim.FitList | app/main.py:208-221 | the longest prefix whose serialized items fit |
| ResponseTrim.TrimTail | app/main.py:224-267 | the trim of the tools without a cursor: what is left fits, unless nothing is left |
| ResponseTrim.TrimSearch | app/main.py:340-388 | how many files stay and how long the sent response is, with its counts, flags and new cursor |
| ReplyText.BodyIsMeasured | app/service.py:420-444 | the length that the trim measures is the length of the JSON text of the response, its counts, flags and separators written out |
| ReplyText.CutIsMeasured | app/main.py:340-388 | what the trim measures after each cut, and sends at the end, is the length of the text of the response with its first files, flagged, and with the new cursor |
| ResponseTrim.FirstTryStandsExactlyWhen | app/main.py:351-374 | when the first try stands, and that else half of it goes |
| ResponseTrim.TrimKeepsMostExactlyWhen | app/main.py:318-374 | the trim keeps the most files it could if and only if its first try stands and one file more would not fit, or its first try fails with two files |
| ResponseTrim.OneLessFits | app/main.py:357-374 | with one file less than its first try a response of more than one file always fits |
| ResponseTrim.NoneBeyondFirstTry | app/main.py:357-374 | no more files than the first try fit where the counts shrink by no more than the flags grow |
| ResponseTrim.FlaggedKeepsFirstTry | app/main.py:357-374 | a response that was flagged truncated before keeps its first try |
| ResponseTrim.TrimGivesUpFittingFiles | app/main.py:357-374 | an unflagged one can leave fewer files than would fit |
| ResponseTrim.FlaggedKeepsTooFew | app/main.py:351-374 | and so can a flagged one, when the counts lose a digit |
| ResponseTrim.SentFitsExactlyWhen | app/main.py:371-386 | the sent response fits exactly when the measured one fits with the growth of the cursor, so it exceeds the budget by less than that |
| ResponseTrim.CursorExceedsBudget | app/main.py:371-386 | two files that fill the budget are sent with a cursor that exceeds it |
| ReplyText.PageIsMeasured | app/main.py:500-535 | the length that a file page is measured by is the length of its JSON text |
| JsonText.WrittenReadsBack | app/main.py:163-165 | what a character costs is the length of its escape, and the escaped text reads back, by section 7 of RFC 8259, to what was written |
| JsonText.NumeralReadsBack | app/main.py:163-165 | a count costs as many bytes as its decimal numeral, which reads back |
| FilePaging.LinesCostIsExact | app/main.py:452-472 | per-line costs add up to the cost of the joined text |
| FilePaging.FitLines | app/main.py:460-472 | the longest prefix of lines that fits |
| FilePaging.ShapeGetFile | app/main.py:475-545 | a page is the next contiguous run of whole lines, at least one, the longest that fits the budget unless one line alone does not, and complete if it is not truncated |
| FilePaging.PageIsUnique | app/main.py:475-545 | content, first line and budget determine the page |
| FilePaging.ReadingRebuildsFile | app/main.py:475-545 | following the next line from line 1, with any budgets, ends within as many pages as lines and rebuilds the file exactly |
| SymbolWalk.Walk | indexer/symbols.py:98-135 | the two-stack loop emits exactly the preorder extraction |
| SymbolWalk.ExtractedExactly | indexer/symbols.py:98-135 | a symbol for exactly each named definition, on its node's rows plus one, and exactly the edges of calls and imports, attributed to the innermost named definition around them |
| SymbolWalk.VisitsArePreorder | indexer/symbols.py:98-135 | each node is visited once, in preorder, under its nearest named ancestor; anonymous definitions are transparent |
| SymbolWalk.VisitsAreAttributed | indexer/symbols.py:130-134 | handing the enclosing symbol down finds the nearest named ancestor |
| SymbolWalk.ExtractOne | indexer/symbols.py:69-135 | a file without a symbol language extracts to nothing |
| SymbolWalk.ExtractFileShortCircuits | indexer/extract_pool.py:128-137 | the extractor does nothing exactly where the pool answers locally |
| UseTrees.UseTreeEdges | indexer/symbols.py:528-613 | the descent with a running prefix gives one import edge a leaf, in order, its target the spelling of the route from the root |
| UseTrees.ImportEdges | indexer/symbols.py:616-621 | a whole use declaration |
| UseTrees.RoutesExactly | indexer/symbols.py:528-613 | the routes are exactly those of the leaves, each behind the paths of the lists around it |
| UseTrees.EdgesExactly | indexer/symbols.py:528-613 | an edge for each route, unless it is empty and needs a path in front |
| UseTrees.SpelledSnoc | indexer/symbols.py:523-525 | joining a segment to a spelled route spells the longer route |
| UseTrees.SpellingDecides | indexer/symbols.py:528-613 | only the spelling of the path above a tree matters |
| UseTrees.NestingIsJoining | indexer/symbols.py:592-604 | a list nested under two paths imports what it imports under their joined path |
| UseTrees.ListsAbbreviate | indexer/symbols.py:592-612 | a list imports what its items import one by one |
| Chunks.IterChunks | indexer/parse.py:72-114 | chunks cover the lines in order; each but the last is full, and fits unless it is one line |
| Chunks.ChunksAreTheFile | indexer/parse.py:72-114 | the chunks concatenate to the file |
| Chunks.ChunkBounds | indexer/parse.py:72-114 | each chunk starts right behind the one before |
| Chunks.ChunkingIsUnique | indexer/parse.py:72-114 | greedy chunking has one result |
| Chunks.LinesRebuild | indexer/parse.py:87-90 | lines with their breaks rebuild the text |
| Chunks.LinesAreCutAtBreaks | indexer/parse.py:87-90 | lines are cut behind every line break and nowhere else, and a carriage return keeps its newline |
| Embedding.QueryBatch | app/embed.py:53-96 | bounded retry |
| Embedding.OutcomeIsFirstReply | app/embed.py:53-96 | a batch succeeds exactly when, after failures only, an attempt in the bound brings one vector a text |
| Embedding.RunPooled | app/embed.py:161-170 | for any order of completion, vectors in order of submission |
| Embedding.InSubmissionOrder | app/embed.py:169-172 | the first failure by ordinal, or all vectors flattened |
| Embedding.RunSerial | app/embed.py:161-162 | the serial path gives the same |
| Embedding.BatchesAreFull | app/embed.py:145-174 | no batch is empty or larger than the batch size, and each but the last is full |
| Embedding.Embed | app/embed.py:145-174 | the result does not depend on concurrency or completion order |
| Embedding.CheckDimsIsComplete | app/embed.py:45-50 | no error exactly when every vector has the dimension |
| Embedding.EmbeddingIsFaithful | app/embed.py:145-174 | for any batch size each text gets its own vector |
| Embedding.HonestWhateverFails | app/embed.py:53-96 | an endpoint may fail any attempt and still answer each batch it answers with its own vectors |
| Embedding.ChunkFiles | indexer/job.py:945-947 | a path has the chunks of the last file that carries it |
| Embedding.SliceRows | indexer/job.py:967-976 | one index moves through the flat list |
| Embedding.PrecomputeRows | indexer/job.py:918-976 | with any embedder plugged in: rows come back exactly when the chunk texts are no more than allowed and it answers them, if there are any, with as many vectors; if it answers the one list it is sent with the vectors of these texts, each row carries the vector of its own text |
| Embedding.PrecomputeWithEndpoint | indexer/job.py:918-976 | for any batch size, retries, concurrency and completion order: rows come back exactly when the texts are no more than allowed and their embedding succeeds, and the stored rows of a path are the chunks of its last file, each with the vector of its own text |
| Embedding.SlicedAt | indexer/job.py:967-976 | a path's rows are its chunks with its stretch of the vectors |

## Left out

- Postgres, SQL text, indexes, grants and migrations: a statement is its effect on maps and sets.
- Surrogate ids: a repo is keyed by its unique name and a file by its unique constraint.
- `files.commit` and `size` are written as the code writes them, but are no part of the refinement theorems, for the reasons above.
- CorpusHistory.HistoriesStaySound: assumes a collision-free digest, one writer at a time, and forward deployments; the first two the code assumes too.
- IndexStore.Store.IndexRepo: the stale-index error of the compare-and-set cannot be raised by a single writer, so its branch does not appear; a runtime conflict is a `Conflicted` outcome in `Job`. Of the counts, symbols and edges are left out.
- The chunk writer's delete-and-insert inside the batch transaction (indexer/chunk_store.py) and its guard for uncovered paths: additive to the store, and small.
- Job.Reconcile: the order in which sets are listed is arbitrary here and sorted there; nothing depends on it.
- The skip seam reads stamps taken before the fan-out; `SkipSeam` states it over the registry of the corpus, which only the branch's own worker changes in between.
- ExtractStream.StreamPooled: the pool's slots are values in a sequence, where the original shares mutable slot objects between two deques; the cancellation of unconsumed futures when the generator is abandoned is left out.
- PoolSupervisor.ExtractionPool.HandleBroken: the executors are numbers, and disposing of one is an event of its own outside the lock; the preflight probe and the process-count derivation are left out.
- Scanner.EmitField: error messages do not repeat the offending value, and lower-casing is that of ASCII; a value with other letters is no hash in either case.
- Compiler.LowerKeepsValue: atoms are opaque here, what they read of a row is `RowMatch`; trigram indexes are left out, and `lang` keys are lower-cased as ASCII.
- RowMatch.SearchMeans: the database's regular expressions are opaque, and its case folding maps character to character and leaves the wildcards of LIKE alone.
- SemanticFilters.Excise: takes its spans in order, as the split produces them, so the sort is the identity.
- Highlights.ExtractLineMatches: a pattern is any function from a line to spans inside it; the engine's deadline is a parameter of the page, not of the line.
- Pagination.ServePage: assumes that no file alone exceeds the byte cap, which the indexer's file limit guarantees.
- SearchEnvelope.TrimmedTraversalShowsEachMatch: assumes that repo names resolve, and that the query has a content pattern; without one no page shows content, and the cursor is suppressed (app/service.py:802-818). The lengths of the files' JSON are any numbers.
- SemanticResidual.SplitIsIdempotentExactlyWhen: where the first thing that stripping bares is a quote, which a later piece may or may not close, the condition does not decide; that nothing bared means idempotent holds for every query.
- JSON and base64: the keys of a response and the values that trimming leaves alone are texts of any kind, and a cursor is its key.
- Ingest.IterTarSourceFiles: gzip and tar decoding, and the reading of a member's bytes, are inputs.
- SymbolWalk.Walk: trees, and what a language makes of a call or import node, are parameters; of the per-language extractors only the recursion over Rust use trees is modelled (`UseTrees`), the others are case splits.
- Embedding.Embed: a reply is a failure or a list of vectors; HTTP and the thread pool are left out.
- Ranking, semantic search, references, the web frontend, HTTP routes, authentication, configuration and logging.
