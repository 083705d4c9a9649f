module SkipSeam {
  // The skip seam (indexer/job.py): a branch whose stamp names its current head and
  // the running semantics version is not indexed again. What such a branch serves.

  import opened Wrappers
  import opened Languages
  import opened Tables
  import opened CorpusHistory

  /** The files a semantics version selects from a repository at a commit. */
  type Checkout = (int, string, string) -> seq<ParsedFile>

  predicate OfHead(tree: Checkout, run: Run) {
    var files := tree(run.version, run.repo, run.head);
    |run.items| == |files| && forall i | 0 <= i < |files| :: run.items[i].pf == files[i]
  }

  function TreeKeys(w: World, tree: Checkout, version: int, repo: string, head: string): set<FileKey> {
    var files := tree(version, repo, head);
    set i | 0 <= i < |files| :: FileKey(repo, files[i].path, w.digest(files[i].content))
  }

  lemma SeenIsTree(w: World, tree: Checkout, run: Run)
    requires OfHead(tree, run)
    ensures Seen(w.digest, run) == TreeKeys(w, tree, run.version, run.repo, run.head)
  {
    var files := tree(run.version, run.repo, run.head);
    forall i | 0 <= i < |files|
      ensures KeyOf(w.digest, run.repo, run.items[i]) == FileKey(run.repo, files[i].path, w.digest(files[i].content))
    {
    }
    assert Seen(w.digest, run) == set i | 0 <= i < |files| :: KeyOf(w.digest, run.repo, run.items[i]);
  }

  /** Would the run of a branch at `head` be skipped? */
  predicate Skips(c: Corpus, repo: string, b: string, head: string, code: int) {
    (repo, b) in c.registry && c.registry[(repo, b)] == Stamp(Some(head), Some(code))
  }

  /** A branch the seam skips carries exactly the files of its head, or that head has none. */
  ghost predicate SeamSound(w: World, tree: Checkout, c: Corpus, code: int, repo: string, b: string) {
    forall head | Skips(c, repo, b, head, code) ::
      tree(code, repo, head) == [] || RowsOf(c, repo, b) == TreeKeys(w, tree, code, repo, head)
  }

  ghost predicate IndexesHeads(tree: Checkout, events: seq<Event>) {
    forall e <- events :: e.IndexCommitted? ==> OfHead(tree, e.run)
  }

  lemma RunKeepsSeam(w: World, tree: Checkout, c: Corpus, run: Run, after: Corpus, repo: string, b: string)
    requires SeamSound(w, tree, c, run.version, repo, b)
    requires Indexed(c, w.digest, run, after) && OfHead(tree, run)
    ensures SeamSound(w, tree, after, run.version, repo, b)
  {
    hide RowOutcome, RowsOf, TreeKeys, Seen;
    if (repo, b) != (run.repo, run.branch) {
      OtherBranchKept(c, w.digest, run, after, repo, b);
    } else if run.items != [] {
      RunSetsExactlyItsBranch(c, w.digest, run, after);
      SeenIsTree(w, tree, run);
    }
  }

  /** Rows whose branch keeps its registry row keep that branch. */
  lemma RetiringKeepsSeam(w: World, tree: Checkout, c: Corpus, code: int, name: string, gone: set<string>, repo: string, b: string)
    requires Structured(c) && SeamSound(w, tree, c, code, repo, b)
    ensures SeamSound(w, tree, Retired(c, name, gone), code, repo, b)
  {
    var after := Retired(c, name, gone);
    if name in c.repos && gone != {} && (repo, b) in after.registry {
      assert c.registry[(repo, b)] == after.registry[(repo, b)];
      RetiringRemovesExactly(c, name, gone);
    }
  }

  lemma PurgingKeepsSeam(w: World, tree: Checkout, c: Corpus, code: int, desired: set<string>, repo: string, b: string)
    requires SeamSound(w, tree, c, code, repo, b)
    ensures SeamSound(w, tree, Purged(c, desired), code, repo, b)
  {
    var after := Purged(c, desired);
    if (repo, b) in after.registry {
      forall k: FileKey
        ensures k in RowsOf(after, repo, b) <==> k in RowsOf(c, repo, b)
      {
      }
      assert RowsOf(after, repo, b) == RowsOf(c, repo, b);
    }
  }

  /** In every history whose runs index the files of their heads, the seam stays sound. */
  lemma {:induction false} SeamStaysSound(
    w: World, tree: Checkout, events: seq<Event>, states: seq<State>, repo: string, b: string, i: nat)
    requires CollisionFree(w.digest) && IsHistory(w, events, states) && IndexesHeads(tree, events) && i <= |events|
    ensures SeamSound(w, tree, states[i].corpus, states[i].code, repo, b)
  {
    hide Indexed, Retired, Purged, TreeKeys, RowsOf, OfHead;
    if i > 0 {
      SeamStaysSound(w, tree, events, states, repo, b, i - 1);
      HistoriesStaySound(w, events, states, i - 1);
      var s, t := states[i - 1], states[i];
      assert Follows(w, events[i - 1], s, t) && events[i - 1] in events;
      match events[i - 1]
      case IndexCommitted(run) => RunKeepsSeam(w, tree, s.corpus, run, t.corpus, repo, b);
      case NothingCommitted =>
      case RetireBranches(name, entries) => RetiringKeepsSeam(w, tree, s.corpus, s.code, name, Sane(entries), repo, b);
      case PurgeRepos(entries) =>
        if PurgeAccepts(entries) {
          PurgingKeepsSeam(w, tree, s.corpus, s.code, Sane(entries), repo, b);
        }
      case Deploy(version) => DeployKeepsSeam(w, tree, s, version, repo, b);
    }
  }

  /** After a deployment of newer code no stamp names the running version. */
  lemma DeployKeepsSeam(w: World, tree: Checkout, s: State, version: int, repo: string, b: string)
    requires Sound(s.corpus, w, s.code) && SeamSound(w, tree, s.corpus, s.code, repo, b) && s.code <= version
    ensures SeamSound(w, tree, s.corpus, version, repo, b)
  {
    hide TreeKeys, RowsOf, Structured, AllVersionsSound, OneVersionPerBranch;
    if (repo, b) in s.corpus.registry {
      assert (repo, b) in s.corpus.registry.Keys;
      assert NotNewerThan(s.corpus.registry, repo, b, s.code);
    }
  }

  /**
   What a skipped branch serves, in any such history: the files of its head, each
   as the running version extracts it. It does so if and only if the head has an
   indexable file or the branch carries no row.
   */
  lemma SkippedServesHeadExactlyWhen(
    w: World, tree: Checkout, events: seq<Event>, states: seq<State>, repo: string, b: string, head: string)
    requires CollisionFree(w.digest) && IsHistory(w, events, states) && IndexesHeads(tree, events)
    requires var s := states[|events|]; Skips(s.corpus, repo, b, head, s.code)
    ensures var s := states[|events|];
      && (RowsOf(s.corpus, repo, b) == TreeKeys(w, tree, s.code, repo, head) <==>
            tree(s.code, repo, head) != [] || RowsOf(s.corpus, repo, b) == {})
      && forall k <- RowsOf(s.corpus, repo, b) ::
           s.corpus.files[k].extraction == w.extract(s.code, k.path, s.corpus.files[k].content)
  {
    var s := states[|events|];
    SeamStaysSound(w, tree, events, states, repo, b, |events|);
    HistoriesStaySound(w, events, states, |events|);
    forall k | k in RowsOf(s.corpus, repo, b)
      ensures s.corpus.files[k].extraction == w.extract(s.code, k.path, s.corpus.files[k].content)
    {
      CurrentBranchServesCurrentRows(s.corpus, w, s.code, k, b);
    }
    assert tree(s.code, repo, head) == [] ==> TreeKeys(w, tree, s.code, repo, head) == {};
  }

  /** Skipping is what indexing again would do: such a run changes no row and no stamp. */
  lemma SkippingIsIndexing(w: World, tree: Checkout, c: Corpus, run: Run, after: Corpus)
    requires Structured(c) && SeamSound(w, tree, c, run.version, run.repo, run.branch)
    requires Skips(c, run.repo, run.branch, run.head, run.version) && OfHead(tree, run)
    requires Indexed(c, w.digest, run, after)
    ensures after.files == c.files && after.writtenAt == c.writtenAt && after.registry == c.registry
  {
    if run.items == [] {
      EmptyRunWritesNothing(c, w.digest, run, after);
    } else {
      SeenIsTree(w, tree, run);
      assert RowsOf(c, run.repo, run.branch) == Seen(w.digest, run);
      forall k: FileKey
        ensures k in after.files <==> k in c.files
        ensures k in after.files ==> after.files[k] == c.files[k] && after.writtenAt[k] == c.writtenAt[k]
      {
        assert RowOutcome(c, w.digest, run, after, k);
        SameBranches(c, w.digest, run, k);
      }
    }
  }

  /** A run that sees what its branch carries leaves a row's branches alone, and classes it unchanged. */
  lemma SameBranches(c: Corpus, digest: Digest, run: Run, k: FileKey)
    requires Structured(c) && GateOpen(c, run) && RowsOf(c, run.repo, run.branch) == Seen(digest, run)
    ensures BranchesAfter(c, digest, run, k) == BranchesOf(c, k)
    ensures k in Seen(digest, run) ==> k in c.files && Classify(c, run, k) == Unchanged
    ensures k in c.files ==> BranchesOf(c, k) != {}
  {
    assert k in Seen(digest, run) <==> k in RowsOf(c, run.repo, run.branch);
    assert k in c.files ==> Carried(c, k);
  }

  /** Branch `b` of repo `r`, indexed at head `h1` with one file. */
  function OneFile(w: World): Corpus {
    var k := FileKey("r", "f", w.digest("x"));
    Corpus(
      map["r" := Some("b")],
      map[("r", "b") := Stamp(Some("h1"), Some(2))],
      map[k := FileRow(w.langOf("f"), 1, "x", "h1", {"b"}, w.extract(2, "f", "x"))],
      map[k := 2])
  }

  lemma OneFileIsSound(w: World)
    ensures Sound(OneFile(w), w, 2)
    ensures RowsOf(OneFile(w), "r", "b") == {FileKey("r", "f", w.digest("x"))}
  {
    var c := OneFile(w);
    assert c.files.Keys == {FileKey("r", "f", w.digest("x"))};
    assert ("r", "b") in c.registry;
  }

  /**
   The self-healing that indexer/store.py:825-838 argues for does not reach a run
   at an unchanged version: head `h2` has no indexable file, its run sweeps
   nothing and stamps it, and from then on the seam skips a branch that still
   serves the file of `h1`.
   */
  lemma EmptiedHeadIsSkippedStale(w: World, run: Run, after: Corpus)
    requires run == Run("r", "b", true, "h2", 2, []) && Indexed(OneFile(w), w.digest, run, after)
    ensures Sound(OneFile(w), w, 2) && GenuineRun(w, run)
    ensures Skips(after, "r", "b", "h2", 2)
    ensures RowsOf(after, "r", "b") == {FileKey("r", "f", w.digest("x"))}
  {
    var c := OneFile(w);
    OneFileIsSound(w);
    assert ("r", "b") in c.registry;
    hide Sound, RowOutcome;
    EmptyRunWritesNothing(c, w.digest, run, after);
    assert RowsOf(after, "r", "b") == RowsOf(c, "r", "b");
  }
}
