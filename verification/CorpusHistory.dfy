module CorpusHistory {
  // What every run, retirement and purge keeps, over whole histories: the soundness
  // argument of the file-level delta path, with the extraction version of each row
  // made visible.

  import opened Wrappers
  import opened Languages
  import opened Tables

  /**
   The world the indexer runs in: the content digest, and the two functions the
   code computes from a file: its language, and what the extractor of a given
   semantics version returns.
   */
  datatype World = World(
    digest: Digest,
    langOf: string -> Option<string>,
    extract: (int, string, string) -> FileExtraction)

  ghost predicate CollisionFree(digest: Digest) {
    forall a: string, b: string :: digest(a) == digest(b) ==> a == b
  }

  /** An item as the production source yields it, extracted by the running code. */
  predicate Genuine(w: World, version: int, item: Item) {
    && item.pf.lang == w.langOf(item.pf.path)
    && item.extraction == w.extract(version, item.pf.path, item.pf.content)
  }

  predicate DistinctPaths(items: seq<Item>) {
    forall i, j | 0 <= i < j < |items| :: items[i].pf.path != items[j].pf.path
  }

  predicate GenuineRun(w: World, run: Run) {
    && (forall item <- run.items :: Genuine(w, run.version, item))
    && DistinctPaths(run.items)
  }

  // ------------------------------------------------------------------ the invariant

  predicate Carried(c: Corpus, k: FileKey) {
    k in c.files && c.files[k].branches != {}
    && forall b <- c.files[k].branches :: (k.repo, b) in c.registry
  }

  /** No branch that carries row `k` is stamped newer than the row's extraction. */
  predicate VersionSound(c: Corpus, k: FileKey)
    requires k in c.files && k in c.writtenAt
  {
    forall b <- c.files[k].branches | (k.repo, b) in c.registry ::
      c.registry[(k.repo, b)].version.Some? ==> c.registry[(k.repo, b)].version.value <= c.writtenAt[k]
  }

  predicate RowGenuine(c: Corpus, w: World, k: FileKey)
    requires k in c.files && k in c.writtenAt
  {
    var row := c.files[k];
    && w.digest(row.content) == k.sha
    && row.lang == w.langOf(k.path)
    && row.extraction == w.extract(c.writtenAt[k], k.path, row.content)
  }

  /** Foreign keys, non-empty and registered membership: what the provenance gate reads off the tables. */
  predicate Structured(c: Corpus) {
    && c.files.Keys == c.writtenAt.Keys
    && (forall rb <- c.registry.Keys :: rb.0 in c.repos)
    && (forall k <- c.files.Keys :: k.repo in c.repos && Carried(c, k))
  }

  predicate AllVersionsSound(c: Corpus)
    requires Structured(c)
  {
    forall k <- c.files.Keys :: VersionSound(c, k)
  }

  /** A branch points at one tree: it carries at most one content version of a path. */
  predicate OneVersionPerBranch(c: Corpus) {
    forall k, l | k in c.files && l in c.files && k.repo == l.repo && k.path == l.path && k != l ::
      c.files[k].branches !! c.files[l].branches
  }

  predicate NotNewerThan(registry: map<(string, string), Stamp>, repo: string, b: string, version: int) {
    (repo, b) in registry && registry[(repo, b)].version.Some? ==> registry[(repo, b)].version.value <= version
  }

  predicate Sound(c: Corpus, w: World, code: int) {
    && Structured(c)
    && AllVersionsSound(c)
    && OneVersionPerBranch(c)
    && (forall rb <- c.registry.Keys :: NotNewerThan(c.registry, rb.0, rb.1, code))
    && forall k <- c.files.Keys :: c.writtenAt[k] <= code && RowGenuine(c, w, k)
  }

  /**
   The purpose of the version column: a branch stamped with the version of the
   running code serves only rows this version extracted.
   */
  lemma CurrentBranchServesCurrentRows(c: Corpus, w: World, code: int, k: FileKey, b: string)
    requires Sound(c, w, code)
    requires k in c.files && b in c.files[k].branches
    requires (k.repo, b) in c.registry && c.registry[(k.repo, b)].version == Some(code)
    ensures c.files[k].extraction == w.extract(code, k.path, c.files[k].content)
  {
    assert VersionSound(c, k);
    assert RowGenuine(c, w, k);
  }

  // ------------------------------------------------------------------ one run

  function RowsOf(c: Corpus, repo: string, b: string): set<FileKey> {
    set k | k in c.files && k.repo == repo && b in c.files[k].branches
  }

  /**
   After a committed run over a non-empty tree the branch carries exactly the
   files it saw, every other branch of every repo carries what it carried, and
   no row of the repo is left without a branch.
   */
  lemma RunSetsExactlyItsBranch(c: Corpus, digest: Digest, run: Run, after: Corpus)
    requires Indexed(c, digest, run, after) && run.items != []
    ensures RowsOf(after, run.repo, run.branch) == Seen(digest, run)
    ensures forall repo, b | (repo, b) != (run.repo, run.branch) :: RowsOf(after, repo, b) == RowsOf(c, repo, b)
    ensures forall k | k in after.files && k.repo == run.repo :: after.files[k].branches != {}
  {
    forall k: FileKey
      ensures k in RowsOf(after, run.repo, run.branch) <==> k in Seen(digest, run)
      ensures k in after.files && k.repo == run.repo ==> after.files[k].branches != {}
    {
      assert RowOutcome(c, digest, run, after, k);
    }
    forall repo, b | (repo, b) != (run.repo, run.branch)
      ensures RowsOf(after, repo, b) == RowsOf(c, repo, b)
    {
      OtherBranchKept(c, digest, run, after, repo, b);
    }
  }

  lemma OtherBranchKept(c: Corpus, digest: Digest, run: Run, after: Corpus, repo: string, b: string)
    requires Indexed(c, digest, run, after) && (repo, b) != (run.repo, run.branch)
    ensures RowsOf(after, repo, b) == RowsOf(c, repo, b)
  {
    forall k: FileKey
      ensures k in RowsOf(after, repo, b) <==> k in RowsOf(c, repo, b)
    {
      OtherRowKept(c, digest, run, after, repo, b, k);
    }
  }

  lemma OtherRowKept(c: Corpus, digest: Digest, run: Run, after: Corpus, repo: string, b: string, k: FileKey)
    requires RowOutcome(c, digest, run, after, k) && (repo, b) != (run.repo, run.branch)
    ensures k in RowsOf(after, repo, b) <==> k in RowsOf(c, repo, b)
  {
    hide LastOf, WrittenRow, Classify;
    assert k in Seen(digest, run) ==> k.repo == run.repo;
    if k.repo == repo {
      assert b in BranchesAfter(c, digest, run, k) <==> b in BranchesOf(c, k);
    }
  }

  /** A run that parsed nothing leaves every row and every extraction version alone. */
  lemma EmptyRunWritesNothing(c: Corpus, digest: Digest, run: Run, after: Corpus)
    requires Indexed(c, digest, run, after) && run.items == [] && c.files.Keys == c.writtenAt.Keys
    ensures after.files == c.files && after.writtenAt == c.writtenAt
    ensures Baseline(after.registry, run).version == Baseline(c.registry, run).version
  {
    forall k: FileKey
      ensures k in after.files <==> k in c.files
      ensures k in after.files ==> after.files[k] == c.files[k] && after.writtenAt[k] == c.writtenAt[k]
    {
      assert RowOutcome(c, digest, run, after, k);
    }
  }

  // ------------------------------------------------------------------ the delta path refines the full path

  /** The corpus after the same run with every file written in full. */
  ghost predicate FullyIndexed(c: Corpus, digest: Digest, run: Run, after: Corpus) {
    && after.repos == WithRepo(c.repos, run)
    && after.registry == WithBranch(c.registry, run)[(run.repo, run.branch) := FinalStamp(c.registry, run)]
    && after.writtenAt.Keys == after.files.Keys
    && forall k: FileKey :: FullRowOutcome(c, digest, run, after, k)
  }

  ghost predicate FullRowOutcome(c: Corpus, digest: Digest, run: Run, after: Corpus, k: FileKey) {
    && (k in after.files <==>
          k in Seen(digest, run)
          || (k in c.files && (SweptOff(digest, run, k) ==> BranchesAfter(c, digest, run, k) != {})))
    && (k in after.files ==> k in after.writtenAt)
    && (k in Seen(digest, run) ==>
          && after.files[k] == WrittenRow(run, LastOf(digest, run.repo, run.items, k), BranchesOf(c, k))
          && after.writtenAt[k] == run.version)
    && (k in after.files && k !in Seen(digest, run) ==>
          && after.files[k] == c.files[k].(branches := BranchesAfter(c, digest, run, k))
          && (k in c.writtenAt ==> after.writtenAt[k] == c.writtenAt[k]))
  }

  /** The full path is what the code does behind a closed gate. */
  lemma ClosedGateWritesInFull(c: Corpus, digest: Digest, run: Run, after: Corpus)
    requires !GateOpen(c, run)
    ensures Indexed(c, digest, run, after) <==> FullyIndexed(c, digest, run, after)
  {
    forall k: FileKey
      ensures RowOutcome(c, digest, run, after, k) <==> FullRowOutcome(c, digest, run, after, k)
    {
      assert Classify(c, run, k) == Changed;
    }
    if Indexed(c, digest, run, after) {
      assert forall k: FileKey :: RowOutcome(c, digest, run, after, k);
    }
    if FullyIndexed(c, digest, run, after) {
      assert forall k: FileKey :: FullRowOutcome(c, digest, run, after, k);
    }
  }

  /** A row without the two columns a skipped file does not refresh. */
  function Visible(row: FileRow): (Option<string>, string, set<string>, FileExtraction) {
    (row.lang, row.content, row.branches, row.extraction)
  }

  function VisibleFiles(files: map<FileKey, FileRow>): map<FileKey, (Option<string>, string, set<string>, FileExtraction)> {
    map k | k in files :: Visible(files[k])
  }

  /** A skipped row was extracted at the running version. */
  lemma SkippedRowIsCurrent(c: Corpus, run: Run, k: FileKey)
    requires Structured(c) && AllVersionsSound(c)
    requires k.repo == run.repo && Classify(c, run, k) != Changed
    ensures k in c.files && run.version <= c.writtenAt[k]
  {
    assert VersionSound(c, k) && Carried(c, k);
    if Classify(c, run, k) == Unchanged {
      assert run.branch in c.files[k].branches;
    } else {
      var b :| b in c.files[k].branches;
      assert (k.repo, b) in c.registry.Keys;
    }
  }

  /** A row the running version extracted shows what writing the same file again would show. */
  lemma CurrentRowShowsFile(c: Corpus, w: World, run: Run, item: Item, k: FileKey)
    requires CollisionFree(w.digest) && Genuine(w, run.version, item) && KeyOf(w.digest, run.repo, item) == k
    requires k in c.files && k in c.writtenAt && c.writtenAt[k] == run.version && RowGenuine(c, w, k)
    ensures var row := c.files[k];
      row.lang == item.pf.lang && row.content == item.pf.content && row.extraction == item.extraction
  {
    assert w.digest(c.files[k].content) == w.digest(item.pf.content);
  }

  /** What the row of a seen file shows after a run, on either path. */
  lemma SeenRow(c: Corpus, w: World, run: Run, after: Corpus, k: FileKey)
    requires Sound(c, w, run.version) && CollisionFree(w.digest) && GenuineRun(w, run)
    requires Indexed(c, w.digest, run, after) && k in Seen(w.digest, run)
    ensures k in after.files
    ensures var item := LastOf(w.digest, run.repo, run.items, k);
      Visible(after.files[k]) == Visible(WrittenRow(run, item, BranchesOf(c, k)))
    ensures after.writtenAt[k] == run.version
  {
    var item := LastOf(w.digest, run.repo, run.items, k);
    assert Genuine(w, run.version, item);
    assert RowOutcome(c, w.digest, run, after, k);
    if Classify(c, run, k) != Changed {
      assert k in c.files && c.writtenAt[k] == run.version && RowGenuine(c, w, k) by {
        SkippedRowIsCurrent(c, run, k);
      }
      CurrentRowShowsFile(c, w, run, item, k);
    }
  }

  /**
   Skipping unchanged files and taking others by membership alone ends with the
   rows, branches, symbols, edges, stamps and extraction versions that writing
   every file in full would end with; only `commit` and `size` may be staler.
   */
  lemma DeltaRefinesFull(c: Corpus, w: World, run: Run, delta: Corpus, full: Corpus)
    requires Sound(c, w, run.version) && CollisionFree(w.digest) && GenuineRun(w, run)
    requires Indexed(c, w.digest, run, delta) && FullyIndexed(c, w.digest, run, full)
    ensures VisibleFiles(delta.files) == VisibleFiles(full.files)
    ensures delta.repos == full.repos && delta.registry == full.registry && delta.writtenAt == full.writtenAt
  {
    forall k: FileKey
      ensures k in delta.files <==> k in full.files
      ensures k in delta.files ==> Visible(delta.files[k]) == Visible(full.files[k])
      ensures k in delta.files ==> delta.writtenAt[k] == full.writtenAt[k]
    {
      assert RowOutcome(c, w.digest, run, delta, k) && FullRowOutcome(c, w.digest, run, full, k);
      if k in Seen(w.digest, run) {
        SeenRow(c, w, run, delta, k);
      }
    }
  }

  // ------------------------------------------------------------------ what one run keeps

  lemma RunKeepsStructure(c: Corpus, digest: Digest, run: Run, after: Corpus)
    requires Structured(c) && Indexed(c, digest, run, after)
    ensures Structured(after)
  {
    forall k | k in after.files
      ensures k.repo in after.repos && Carried(after, k)
    {
      assert RowOutcome(c, digest, run, after, k);
      assert k in Seen(digest, run) ==> k.repo == run.repo;
      assert k in c.files ==> Carried(c, k);
    }
  }

  /**
   The guard a caller could check: no row this run rewrites is carried by a
   sibling branch stamped newer than the running code.
   */
  ghost predicate RewritesNoNewerRow(c: Corpus, digest: Digest, run: Run) {
    forall k: FileKey, b: string ::
      k in Seen(digest, run) && Classify(c, run, k) == Changed && b in BranchesOf(c, k) && b != run.branch ==>
      NotNewerThan(c.registry, k.repo, b, run.version)
  }

  lemma RunKeepsRowVersion(c: Corpus, digest: Digest, run: Run, after: Corpus, k: FileKey)
    requires Structured(c) && AllVersionsSound(c) && RewritesNoNewerRow(c, digest, run)
    requires Indexed(c, digest, run, after) && k in after.files
    ensures VersionSound(after, k)
  {
    assert RowOutcome(c, digest, run, after, k);
    assert k in c.files ==> VersionSound(c, k);
    assert k in Seen(digest, run) ==> k.repo == run.repo;
    if k in Seen(digest, run) && Classify(c, run, k) != Changed {
      SkippedRowIsCurrent(c, run, k);
    }
    forall b | b in after.files[k].branches && (k.repo, b) in after.registry
      ensures NotNewerThan(after.registry, k.repo, b, after.writtenAt[k])
    {
      if b != run.branch || k.repo != run.repo {
        assert b in BranchesOf(c, k);
        if k in Seen(digest, run) && Classify(c, run, k) == Changed {
          assert NotNewerThan(c.registry, k.repo, b, run.version);
        }
      }
    }
  }

  /**
   Exactly when a run keeps the version invariant. A run of older code than a
   sibling's stamp breaks it on every shared row it rewrites, and nothing else does.
   */
  lemma RunKeepsVersionsExactlyWhen(c: Corpus, digest: Digest, run: Run, after: Corpus)
    requires Structured(c) && AllVersionsSound(c) && Indexed(c, digest, run, after)
    ensures Structured(after)
    ensures AllVersionsSound(after) <==> RewritesNoNewerRow(c, digest, run)
  {
    RunKeepsStructure(c, digest, run, after);
    if RewritesNoNewerRow(c, digest, run) {
      forall k | k in after.files
        ensures VersionSound(after, k)
      {
        RunKeepsRowVersion(c, digest, run, after, k);
      }
    }
    if AllVersionsSound(after) {
      forall k: FileKey, b: string |
        k in Seen(digest, run) && Classify(c, run, k) == Changed && b in BranchesOf(c, k) && b != run.branch
        ensures NotNewerThan(c.registry, k.repo, b, run.version)
      {
        assert RowOutcome(c, digest, run, after, k);
        assert VersionSound(after, k);
        assert b in after.files[k].branches;
      }
    }
  }

  /** Two files of one tree never share a path, so a branch keeps one version of each path. */
  lemma RunKeepsOneVersion(c: Corpus, digest: Digest, run: Run, after: Corpus)
    requires OneVersionPerBranch(c) && DistinctPaths(run.items) && Indexed(c, digest, run, after)
    ensures OneVersionPerBranch(after)
  {
    forall k, l | k in after.files && l in after.files && k.repo == l.repo && k.path == l.path && k != l
      ensures after.files[k].branches !! after.files[l].branches
    {
      assert RowOutcome(c, digest, run, after, k) && RowOutcome(c, digest, run, after, l);
      assert !(k in Seen(digest, run) && l in Seen(digest, run)) by {
        if k in Seen(digest, run) && l in Seen(digest, run) {
          SeenPathIdentifies(digest, run, k, l);
        }
      }
      assert k in Seen(digest, run) ==> k.repo == run.repo;
      assert l in Seen(digest, run) ==> l.repo == run.repo;
      assert BranchesOf(c, k) !! BranchesOf(c, l);
    }
  }

  lemma SeenPathIdentifies(digest: Digest, run: Run, k: FileKey, l: FileKey)
    requires DistinctPaths(run.items) && k.path == l.path
    requires k in Seen(digest, run) && l in Seen(digest, run)
    ensures k == l
  {
    var i :| 0 <= i < |run.items| && KeyOf(digest, run.repo, run.items[i]) == k;
    var j :| 0 <= j < |run.items| && KeyOf(digest, run.repo, run.items[j]) == l;
    assert i == j;
  }

  lemma RunKeepsSound(c: Corpus, w: World, run: Run, after: Corpus)
    requires Sound(c, w, run.version) && CollisionFree(w.digest) && GenuineRun(w, run)
    requires Indexed(c, w.digest, run, after)
    ensures Sound(after, w, run.version)
  {
    assert RewritesNoNewerRow(c, w.digest, run);
    RunKeepsVersionsExactlyWhen(c, w.digest, run, after);
    RunKeepsOneVersion(c, w.digest, run, after);
    forall k | k in after.files
      ensures after.writtenAt[k] <= run.version && RowGenuine(after, w, k)
    {
      assert RowOutcome(c, w.digest, run, after, k);
      if k in Seen(w.digest, run) {
        SeenRow(c, w, run, after, k);
        assert Genuine(w, run.version, LastOf(w.digest, run.repo, run.items, k));
      } else {
        assert RowGenuine(c, w, k);
      }
    }
  }

  // ------------------------------------------------------------------ reconciliation

  /** Dropping rows, registry rows and memberships together keeps the invariant. */
  lemma ShrinkingKeepsSound(c: Corpus, w: World, code: int, after: Corpus)
    requires Sound(c, w, code)
    requires after.files.Keys == after.writtenAt.Keys && after.registry.Keys <= c.registry.Keys
    requires forall rb <- after.registry.Keys :: rb.0 in after.repos && after.registry[rb] == c.registry[rb]
    requires forall k <- after.files.Keys :: ShrunkRow(c, after, k)
    ensures Sound(after, w, code)
  {
    hide ShrunkRow, Carried, VersionSound, RowGenuine, NotNewerThan, OneVersionPerBranch;
    forall k | k in after.files
      ensures k in after.writtenAt && k.repo in after.repos && Carried(after, k) && VersionSound(after, k)
      ensures after.writtenAt[k] <= code && RowGenuine(after, w, k)
    {
      ShrunkRowIsSound(c, w, code, after, k);
    }
    ShrinkingKeepsOneVersion(c, after);
    forall rb | rb in after.registry.Keys
      ensures NotNewerThan(after.registry, rb.0, rb.1, code)
    {
      SameStamp(c.registry, after.registry, rb, code);
    }
  }

  lemma SameStamp(before: map<(string, string), Stamp>, after: map<(string, string), Stamp>, rb: (string, string), code: int)
    requires rb in before && rb in after && after[rb] == before[rb] && NotNewerThan(before, rb.0, rb.1, code)
    ensures NotNewerThan(after, rb.0, rb.1, code)
  {
    assert rb == (rb.0, rb.1);
  }

  lemma ShrinkingKeepsOneVersion(c: Corpus, after: Corpus)
    requires OneVersionPerBranch(c) && forall k <- after.files.Keys :: ShrunkRow(c, after, k)
    ensures OneVersionPerBranch(after)
  {
    forall k, l | k in after.files && l in after.files && k.repo == l.repo && k.path == l.path && k != l
      ensures after.files[k].branches !! after.files[l].branches
    {
      assert ShrunkRow(c, after, k) && ShrunkRow(c, after, l);
      assert c.files[k].branches !! c.files[l].branches;
    }
  }

  lemma ShrunkRowIsSound(c: Corpus, w: World, code: int, after: Corpus, k: FileKey)
    requires Sound(c, w, code) && k in after.files && ShrunkRow(c, after, k)
    requires forall rb <- after.registry.Keys :: rb in c.registry && after.registry[rb] == c.registry[rb]
    ensures k in after.writtenAt && k.repo in after.repos && Carried(after, k) && VersionSound(after, k)
    ensures after.writtenAt[k] <= code && RowGenuine(after, w, k)
  {
    assert k in c.files.Keys && Carried(c, k) && VersionSound(c, k) && RowGenuine(c, w, k);
    hide Sound, Structured, AllVersionsSound, OneVersionPerBranch;
  }

  predicate ShrunkRow(c: Corpus, after: Corpus, k: FileKey)
    requires k in after.files
  {
    && k in c.files && k in c.writtenAt && k in after.writtenAt && k.repo in after.repos
    && after.writtenAt[k] == c.writtenAt[k]
    && after.files[k] == c.files[k].(branches := after.files[k].branches)
    && after.files[k].branches != {} && after.files[k].branches <= c.files[k].branches
    && forall b <- after.files[k].branches :: (k.repo, b) in after.registry
  }

  lemma RetiringShrinks(c: Corpus, repo: string, gone: set<string>)
    requires Structured(c)
    ensures var after := Retired(c, repo, gone);
      && after.files.Keys == after.writtenAt.Keys && after.registry.Keys <= c.registry.Keys
      && (forall rb <- after.registry.Keys :: rb.0 in after.repos && after.registry[rb] == c.registry[rb])
      && forall k <- after.files.Keys :: ShrunkRow(c, after, k)
  {
    var after := Retired(c, repo, gone);
    forall k | k in after.files
      ensures ShrunkRow(c, after, k)
    {
      assert Carried(c, k);
    }
  }

  lemma RetiringKeepsSound(c: Corpus, w: World, code: int, repo: string, gone: set<string>)
    requires Sound(c, w, code)
    ensures Sound(Retired(c, repo, gone), w, code)
  {
    RetiringShrinks(c, repo, gone);
    ShrinkingKeepsSound(c, w, code, Retired(c, repo, gone));
  }

  /**
   Retirement takes the retired branches off the repo's rows and registry, no
   branch else, and a second retirement of the same branches finds nothing to do.
   */
  lemma RetiringRemovesExactly(c: Corpus, repo: string, gone: set<string>)
    requires Structured(c) && repo in c.repos
    ensures var after := Retired(c, repo, gone);
      && (forall b <- gone :: RowsOf(after, repo, b) == {} && (repo, b) !in after.registry)
      && (forall r, b | r != repo || b !in gone ::
            RowsOf(after, r, b) == RowsOf(c, r, b) && ((r, b) in after.registry <==> (r, b) in c.registry))
      && Retired(after, repo, gone) == after
  {
    var after := Retired(c, repo, gone);
    forall r, b | r != repo || b !in gone
      ensures RowsOf(after, r, b) == RowsOf(c, r, b)
    {
      forall k: FileKey
        ensures k in RowsOf(after, r, b) <==> k in RowsOf(c, r, b)
      {
        if k in RowsOf(c, r, b) && r == repo {
          assert b in c.files[k].branches - gone;
        }
      }
    }
    RetiringTwiceIsOnce(c, repo, gone);
  }

  lemma RetiringTwiceIsOnce(c: Corpus, repo: string, gone: set<string>)
    requires Structured(c)
    ensures Retired(Retired(c, repo, gone), repo, gone) == Retired(c, repo, gone)
  {
    if repo in c.repos && gone != {} {
      forall k | k in c.files
        ensures c.files[k].branches - gone - gone == c.files[k].branches - gone
      {
      }
      hide Structured;
      var after := Retired(c, repo, gone);
      var again := Retired(after, repo, gone);
      assert after.writtenAt.Keys <= after.files.Keys;
      assert again.registry == after.registry;
      forall k | k in after.files
        ensures k in again.files && again.files[k] == after.files[k]
      {
      }
      assert again.files == after.files;
      assert again.writtenAt == after.writtenAt;
    }
  }

  lemma PurgingShrinks(c: Corpus, desired: set<string>)
    requires Structured(c)
    ensures var after := Purged(c, desired);
      && after.files.Keys == after.writtenAt.Keys && after.registry.Keys <= c.registry.Keys
      && (forall rb <- after.registry.Keys :: rb.0 in after.repos && after.registry[rb] == c.registry[rb])
      && forall k <- after.files.Keys :: ShrunkRow(c, after, k)
  {
    var after := Purged(c, desired);
    forall k | k in after.files
      ensures ShrunkRow(c, after, k)
    {
      assert Carried(c, k);
    }
  }

  lemma PurgingKeepsSound(c: Corpus, w: World, code: int, desired: set<string>)
    requires Sound(c, w, code)
    ensures Sound(Purged(c, desired), w, code)
  {
    PurgingShrinks(c, desired);
    ShrinkingKeepsSound(c, w, code, Purged(c, desired));
  }

  // ------------------------------------------------------------------ whole histories

  const EMPTY := Corpus(map[], map[], map[], map[])

  datatype State = State(corpus: Corpus, code: int)

  /** `NothingCommitted` is a run that failed, conflicted or was refused and rolled back. */
  datatype Event =
    | IndexCommitted(run: Run)
    | NothingCommitted
    | RetireBranches(repo: string, entries: seq<Option<string>>)
    | PurgeRepos(entries: seq<Option<string>>)
    | Deploy(version: int)

  /** A purge refuses an empty keep-set and any entry that is no non-empty string. */
  predicate PurgeAccepts(entries: seq<Option<string>>) {
    entries != [] && forall e <- entries :: e.Some? && e.value != ""
  }

  /** One event of a history; a deployment never lowers the semantics version. */
  ghost predicate Follows(w: World, event: Event, s: State, t: State) {
    match event
    case IndexCommitted(run) =>
      && run.version == s.code && GenuineRun(w, run)
      && Indexed(s.corpus, w.digest, run, t.corpus) && t.code == s.code
    case NothingCommitted => t == s
    case RetireBranches(repo, entries) => t == s.(corpus := Retired(s.corpus, repo, Sane(entries)))
    case PurgeRepos(entries) => t == if PurgeAccepts(entries) then s.(corpus := Purged(s.corpus, Sane(entries))) else s
    case Deploy(version) => s.code <= version && t == s.(code := version)
  }

  ghost predicate IsHistory(w: World, events: seq<Event>, states: seq<State>) {
    && |states| == |events| + 1
    && states[0].corpus == EMPTY
    && forall i | 0 <= i < |events| :: Follows(w, events[i], states[i], states[i + 1])
  }

  /**
   Over every history of runs, branches, empty runs, roll-backs, retirements,
   purges and forward deployments, every row carries a branch, every carried
   branch is registered, no branch is stamped newer than a row it carries, and a
   branch carries one content version of a path.
   */
  lemma {:induction false} HistoriesStaySound(w: World, events: seq<Event>, states: seq<State>, i: nat)
    requires CollisionFree(w.digest) && IsHistory(w, events, states) && i <= |events|
    ensures Sound(states[i].corpus, w, states[i].code)
  {
    if i > 0 {
      HistoriesStaySound(w, events, states, i - 1);
      var s, t := states[i - 1], states[i];
      assert Follows(w, events[i - 1], s, t);
      match events[i - 1]
      case IndexCommitted(run) => RunKeepsSound(s.corpus, w, run, t.corpus);
      case NothingCommitted =>
      case RetireBranches(repo, entries) => RetiringKeepsSound(s.corpus, w, s.code, repo, Sane(entries));
      case PurgeRepos(entries) => if PurgeAccepts(entries) { PurgingKeepsSound(s.corpus, w, s.code, Sane(entries)); }
      case Deploy(version) =>
    }
  }

  // ------------------------------------------------------------------ the default branch of a repo

  /** A committed run of the repo, on whatever branch. */
  predicate Runs(event: Event, repo: string) {
    event.IndexCommitted? && event.run.repo == repo
  }

  /** A committed run of the repo's default branch, whose name is `b`. */
  predicate RunsDefault(event: Event, repo: string, b: string) {
    Runs(event, repo) && event.run.isDefault && event.run.branch == b
  }

  /** A purge that is accepted and does not keep the repo. */
  predicate Removes(event: Event, repo: string) {
    event.PurgeRepos? && PurgeAccepts(event.entries) && Some(repo) !in event.entries
  }

  /** Is event `i` a run of the repo since the repo was last purged? */
  predicate RunsSincePurge(events: seq<Event>, n: nat, repo: string, i: nat) {
    i < n <= |events| && Runs(events[i], repo) && forall j | i < j < n :: !Removes(events[j], repo)
  }

  /** Is event `i` the last run of the repo's default branch, and the repo not purged since? */
  predicate LastDefaultRun(events: seq<Event>, n: nat, repo: string, b: string, i: nat) {
    && i < n <= |events| && RunsDefault(events[i], repo, b)
    && forall j | i < j < n :: !Removes(events[j], repo) && !(Runs(events[j], repo) && events[j].run.isDefault)
  }

  /** What one event does to the row of a repo. */
  lemma RepoRowFollows(w: World, event: Event, s: State, t: State, repo: string)
    requires Follows(w, event, s, t)
    ensures var before, after := s.corpus.repos, t.corpus.repos;
      && (repo in after <==> Runs(event, repo) || (repo in before && !Removes(event, repo)))
      && (Runs(event, repo) && event.run.isDefault ==> after[repo] == Some(event.run.branch))
      && (Runs(event, repo) && !event.run.isDefault ==> after[repo] == if repo in before then before[repo] else None)
      && (!Runs(event, repo) && repo in after ==> after[repo] == before[repo])
  {
    hide RowOutcome, GenuineRun, WithBranch;
    if event.PurgeRepos? && PurgeAccepts(event.entries) {
      KeepsExactly(event.entries, repo);
    }
  }

  lemma KeepsExactly(entries: seq<Option<string>>, repo: string)
    requires PurgeAccepts(entries)
    ensures repo in Sane(entries) <==> Some(repo) in entries
  {
    if Some(repo) in entries {
      var i :| 0 <= i < |entries| && entries[i] == Some(repo);
    }
  }

  /** Some run of the repo committed since it was last purged. */
  ghost predicate StoredBy(events: seq<Event>, n: nat, repo: string) {
    exists i: nat :: RunsSincePurge(events, n, repo, i)
  }

  /** The last run on a default branch since then was on `b`. */
  ghost predicate LastDefaultIs(events: seq<Event>, n: nat, repo: string, b: string) {
    exists i: nat :: LastDefaultRun(events, n, repo, b, i)
  }

  lemma StoredByNext(events: seq<Event>, n: nat, repo: string)
    requires n < |events|
    ensures StoredBy(events, n + 1, repo) <==>
      Runs(events[n], repo) || (!Removes(events[n], repo) && StoredBy(events, n, repo))
  {
    hide Runs, Removes;
    if StoredBy(events, n + 1, repo) {
      var i: nat :| RunsSincePurge(events, n + 1, repo, i);
      assert i < n ==> RunsSincePurge(events, n, repo, i);
    }
    if StoredBy(events, n, repo) && !Removes(events[n], repo) {
      var i: nat :| RunsSincePurge(events, n, repo, i);
      assert RunsSincePurge(events, n + 1, repo, i);
    }
    if Runs(events[n], repo) {
      assert RunsSincePurge(events, n + 1, repo, n);
    }
  }

  lemma LastDefaultNext(events: seq<Event>, n: nat, repo: string, b: string)
    requires n < |events|
    ensures LastDefaultIs(events, n + 1, repo, b) <==>
      if Runs(events[n], repo) && events[n].run.isDefault then events[n].run.branch == b
      else !Removes(events[n], repo) && LastDefaultIs(events, n, repo, b)
  {
    hide Removes;
    if LastDefaultIs(events, n + 1, repo, b) {
      var i: nat :| LastDefaultRun(events, n + 1, repo, b, i);
      assert i < n ==> LastDefaultRun(events, n, repo, b, i);
    }
    if LastDefaultIs(events, n, repo, b) {
      var i: nat :| LastDefaultRun(events, n, repo, b, i);
      if !Removes(events[n], repo) && !(Runs(events[n], repo) && events[n].run.isDefault) {
        assert LastDefaultRun(events, n + 1, repo, b, i);
      }
    }
    if RunsDefault(events[n], repo, b) {
      assert LastDefaultRun(events, n + 1, repo, b, n);
    }
  }

  lemma DefaultOfStored(events: seq<Event>, n: nat, repo: string, b: string)
    requires LastDefaultIs(events, n, repo, b)
    ensures StoredBy(events, n, repo)
  {
    var i: nat :| LastDefaultRun(events, n, repo, b, i);
    assert RunsSincePurge(events, n, repo, i);
  }

  /**
   In every history a repo is stored exactly if some run of it committed since it was
   last purged, and its default branch is that of the last of these runs that was on
   a default branch; if none was, it has none.
   */
  lemma {:induction false} DefaultBranchIsOfLastDefaultRun(
    w: World, events: seq<Event>, states: seq<State>, n: nat, repo: string, b: string)
    requires IsHistory(w, events, states) && n <= |events|
    ensures repo in states[n].corpus.repos <==> StoredBy(events, n, repo)
    ensures repo in states[n].corpus.repos ==>
      (states[n].corpus.repos[repo] == Some(b) <==> LastDefaultIs(events, n, repo, b))
  {
    if n > 0 {
      hide Follows, Removes, StoredBy, LastDefaultIs;
      DefaultBranchIsOfLastDefaultRun(w, events, states, n - 1, repo, b);
      RepoRowFollows(w, events[n - 1], states[n - 1], states[n], repo);
      StoredByNext(events, n - 1, repo);
      LastDefaultNext(events, n - 1, repo, b);
      if LastDefaultIs(events, n - 1, repo, b) {
        DefaultOfStored(events, n - 1, repo, b);
      }
    }
  }

  /** In any history, the delta path of the next run refines its full path. */
  lemma DeltaRefinesFullInEveryHistory(
    w: World, events: seq<Event>, states: seq<State>, run: Run, delta: Corpus, full: Corpus)
    requires CollisionFree(w.digest) && IsHistory(w, events, states)
    requires GenuineRun(w, run) && run.version == states[|events|].code
    requires Indexed(states[|events|].corpus, w.digest, run, delta)
    requires FullyIndexed(states[|events|].corpus, w.digest, run, full)
    ensures VisibleFiles(delta.files) == VisibleFiles(full.files)
    ensures delta.repos == full.repos && delta.registry == full.registry && delta.writtenAt == full.writtenAt
  {
    HistoriesStaySound(w, events, states, |events|);
    DeltaRefinesFull(states[|events|].corpus, w, run, delta, full);
  }

  function GoFile(): ParsedFile {
    ParsedFile("f.go", Some("go"), 1, "x")
  }

  /** Branch `b` indexed one Go file at version 2. */
  function IndexedAtTwo(w: World): Corpus {
    var k := FileKey("r", "f.go", w.digest("x"));
    Corpus(
      map["r" := Some("b")],
      map[("r", "b") := Stamp(Some("h2"), Some(2))],
      map[k := FileRow(Some("go"), 1, "x", "h2", {"b"}, w.extract(2, "f.go", "x"))],
      map[k := 2])
  }

  lemma IndexedAtTwoIsSound(w: World)
    requires w.langOf("f.go") == Some("go")
    ensures Sound(IndexedAtTwo(w), w, 2)
  {
    var c := IndexedAtTwo(w);
    assert c.files.Keys == {FileKey("r", "f.go", w.digest("x"))};
    assert ("r", "b") in c.registry;
  }

  /**
   Roll the code back and forward again, and the promise fails: version 1
   rewrites, for branch `a`, the row that branch `b` carries under stamp 2; at
   version 2 the gate of `b` is open and skips the row for good. So wherever the two
   versions extract the file differently, `b` goes on serving the older extraction.
   */
  lemma RollbackServesOlderRows(w: World, rolledBack: Run, later: Run, after: Corpus)
    requires w.langOf("f.go") == Some("go") && w.extract(1, "f.go", "x") != w.extract(2, "f.go", "x")
    requires rolledBack == Run("r", "a", false, "h1", 1, [Item(GoFile(), w.extract(1, "f.go", "x"))])
    requires later == Run("r", "b", true, "h3", 2, [Item(GoFile(), w.extract(2, "f.go", "x"))])
    requires Indexed(IndexedAtTwo(w), w.digest, rolledBack, after)
    ensures Sound(IndexedAtTwo(w), w, 2) && GenuineRun(w, rolledBack) && GenuineRun(w, later) && NeedsParse(GoFile())
    ensures var k := FileKey("r", "f.go", w.digest("x"));
      && k in after.files && "b" in after.files[k].branches
      && after.registry[("r", "b")].version == Some(2)
      && after.files[k].extraction == w.extract(1, "f.go", "x") != w.extract(2, "f.go", "x")
      && Classify(after, later, k) == Unchanged
  {
    var c, k := IndexedAtTwo(w), FileKey("r", "f.go", w.digest("x"));
    IndexedAtTwoIsSound(w);
    hide Sound;
    assert KeyOf(w.digest, "r", rolledBack.items[0]) == k;
    assert k in Seen(w.digest, rolledBack);
    assert Classify(c, rolledBack, k) == Changed;
    assert RowOutcome(c, w.digest, rolledBack, after, k);
    assert ("r", "b") in c.registry;
  }
}
