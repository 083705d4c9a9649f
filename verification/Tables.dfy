module Tables {
  // The tables behind the index as values, and the effect of each statement the
  // indexer issues on them. A repo's row is keyed by its unique name, a file's row
  // by its unique constraint (repo, path, content sha); a file's symbols and edges
  // live in its row, so the cascades of the foreign keys are deletions of keys.

  import opened Wrappers
  import opened Languages

  datatype FileKey = FileKey(repo: string, path: string, sha: string)

  datatype FileRow = FileRow(
    lang: Option<string>,
    size: nat,
    content: string,
    commit: string,
    branches: set<string>,
    extraction: FileExtraction)

  /** One registry row: the last indexed commit and the semantics version, NULL as None. */
  datatype Stamp = Stamp(commit: Option<string>, version: Option<int>)

  const NO_STAMP := Stamp(None, None)

  /**
   `repos` maps a name to its default branch. `writtenAt` is bookkeeping the
   program does not have: the semantics version each row was last extracted at.
   */
  datatype Corpus = Corpus(
    repos: map<string, Option<string>>,
    registry: map<(string, string), Stamp>,
    files: map<FileKey, FileRow>,
    writtenAt: map<FileKey, int>)

  datatype Item = Item(pf: ParsedFile, extraction: FileExtraction)

  /** One call of `index_repo`: `version` is the semantics version of the code that runs. */
  datatype Run = Run(
    repo: string,
    branch: string,
    isDefault: bool,
    head: string,
    version: int,
    items: seq<Item>)

  type Digest = string -> string

  function KeyOf(digest: Digest, repo: string, item: Item): FileKey {
    FileKey(repo, item.pf.path, digest(item.pf.content))
  }

  function Keys(digest: Digest, repo: string, items: seq<Item>): set<FileKey> {
    set i | 0 <= i < |items| :: KeyOf(digest, repo, items[i])
  }

  lemma KeysConcat(digest: Digest, repo: string, xs: seq<Item>, ys: seq<Item>)
    ensures Keys(digest, repo, xs + ys) == Keys(digest, repo, xs) + Keys(digest, repo, ys)
  {
    var zs := xs + ys;
    forall k | k in Keys(digest, repo, xs) + Keys(digest, repo, ys)
      ensures k in Keys(digest, repo, zs)
    {
      if k in Keys(digest, repo, xs) {
        var i :| 0 <= i < |xs| && KeyOf(digest, repo, xs[i]) == k;
        assert zs[i] == xs[i];
      } else {
        var i :| 0 <= i < |ys| && KeyOf(digest, repo, ys[i]) == k;
        assert zs[|xs| + i] == ys[i];
      }
    }
  }

  /** The last item that carries key `k`. */
  function LastOf(digest: Digest, repo: string, items: seq<Item>, k: FileKey): (item: Item)
    requires k in Keys(digest, repo, items)
    ensures item in items && KeyOf(digest, repo, item) == k
  {
    var n := |items| - 1;
    if KeyOf(digest, repo, items[n]) == k then items[n]
    else
      assert items == items[..n] + items[n..];
      LastOf(digest, repo, items[..n], k)
  }

  lemma {:induction false} LastOfConcat(digest: Digest, repo: string, xs: seq<Item>, ys: seq<Item>, k: FileKey)
    requires k in Keys(digest, repo, xs + ys)
    ensures LastOf(digest, repo, xs + ys, k)
         == if k in Keys(digest, repo, ys) then LastOf(digest, repo, ys, k)
            else (KeysConcat(digest, repo, xs, ys); LastOf(digest, repo, xs, k))
    decreases |ys|
  {
    KeysConcat(digest, repo, xs, ys);
    if ys == [] {
      assert xs + ys == xs;
    } else {
      var n := |ys| - 1;
      assert (xs + ys)[..|xs| + n] == xs + ys[..n];
      if KeyOf(digest, repo, ys[n]) != k {
        assert ys == ys[..n] + [ys[n]];
        KeysConcat(digest, repo, ys[..n], [ys[n]]);
        assert xs + ys == (xs + ys[..n]) + [ys[n]];
        KeysConcat(digest, repo, xs + ys[..n], [ys[n]]);
        LastOfConcat(digest, repo, xs, ys[..n], k);
      }
    }
  }

  // ------------------------------------------------------------------ statements of index_repo

  function WithRepo(repos: map<string, Option<string>>, run: Run): map<string, Option<string>> {
    if run.isDefault then repos[run.repo := Some(run.branch)]
    else if run.repo in repos then repos
    else repos[run.repo := None]
  }

  /** The registry after the branch row was inserted or found. */
  function WithBranch(registry: map<(string, string), Stamp>, run: Run): map<(string, string), Stamp> {
    if (run.repo, run.branch) in registry then registry
    else registry[(run.repo, run.branch) := NO_STAMP]
  }

  function Baseline(registry: map<(string, string), Stamp>, run: Run): Stamp {
    if (run.repo, run.branch) in registry then registry[(run.repo, run.branch)] else NO_STAMP
  }

  predicate GateOpen(c: Corpus, run: Run) {
    Baseline(c.registry, run).version == Some(run.version)
  }

  /** Is every registered branch of `repo` stamped `version`? */
  predicate WhollyAt(registry: map<(string, string), Stamp>, repo: string, version: int) {
    forall rb <- registry.Keys :: rb.0 == repo ==> registry[rb].version == Some(version)
  }

  datatype Class = Unchanged | MembershipOnly | Changed

  function Classify(c: Corpus, run: Run, k: FileKey): Class {
    if GateOpen(c, run) && k in c.files && run.branch in c.files[k].branches then Unchanged
    else if GateOpen(c, run) && WhollyAt(c.registry, run.repo, run.version) && k in c.files then MembershipOnly
    else Changed
  }

  function OfClass(c: Corpus, digest: Digest, run: Run, items: seq<Item>, cls: Class): seq<Item>
  {
    if items == [] then []
    else
      var n := |items| - 1;
      OfClass(c, digest, run, items[..n], cls)
      + if Classify(c, run, KeyOf(digest, run.repo, items[n])) == cls then [items[n]] else []
  }

  lemma {:induction false} OfClassMembers(c: Corpus, digest: Digest, run: Run, items: seq<Item>, cls: Class)
    ensures forall x :: x in OfClass(c, digest, run, items, cls) <==>
      x in items && Classify(c, run, KeyOf(digest, run.repo, x)) == cls
    decreases |items|
  {
    if items != [] {
      var n := |items| - 1;
      OfClassMembers(c, digest, run, items[..n], cls);
      assert items == items[..n] + [items[n]];
    }
  }

  lemma OfClassSnoc(c: Corpus, digest: Digest, run: Run, items: seq<Item>, i: nat, cls: Class)
    requires i < |items|
    ensures OfClass(c, digest, run, items[..i + 1], cls)
         == OfClass(c, digest, run, items[..i], cls)
            + if Classify(c, run, KeyOf(digest, run.repo, items[i])) == cls then [items[i]] else []
  {
    assert items[..i + 1][..i] == items[..i];
  }

  function WrittenRow(run: Run, item: Item, previous: set<string>): FileRow {
    FileRow(item.pf.lang, item.pf.size, item.pf.content, run.head, previous + {run.branch}, item.extraction)
  }

  /** Every key of `xs` is rewritten from its last item, its old branches kept. */
  function Upserted(digest: Digest, run: Run, files: map<FileKey, FileRow>, xs: seq<Item>): map<FileKey, FileRow> {
    map k | k in files.Keys + Keys(digest, run.repo, xs) ::
      if k in Keys(digest, run.repo, xs) then
        WrittenRow(run, LastOf(digest, run.repo, xs, k), if k in files then files[k].branches else {})
      else files[k]
  }

  /**
   Two flushes are one: where a batch boundary falls, and whether a duplicate
   falls inside a batch or across two, does not show in the stored rows.
   */
  lemma UpsertConcat(digest: Digest, run: Run, files: map<FileKey, FileRow>, xs: seq<Item>, ys: seq<Item>)
    ensures Upserted(digest, run, Upserted(digest, run, files, xs), ys) == Upserted(digest, run, files, xs + ys)
  {
    var once := Upserted(digest, run, files, xs + ys);
    var first := Upserted(digest, run, files, xs);
    var twice := Upserted(digest, run, first, ys);
    KeysConcat(digest, run.repo, xs, ys);
    hide Keys, LastOf;
    assert once.Keys == twice.Keys;
    forall k | k in once.Keys
      ensures once[k] == twice[k]
    {
      UpsertTwiceAt(digest, run, files, xs, ys, k);
    }
  }

  lemma UpsertTwiceAt(digest: Digest, run: Run, files: map<FileKey, FileRow>, xs: seq<Item>, ys: seq<Item>, k: FileKey)
    requires k in files.Keys + Keys(digest, run.repo, xs + ys)
    ensures k in Upserted(digest, run, files, xs + ys) && k in Upserted(digest, run, Upserted(digest, run, files, xs), ys)
    ensures Upserted(digest, run, files, xs + ys)[k] == Upserted(digest, run, Upserted(digest, run, files, xs), ys)[k]
  {
    KeysConcat(digest, run.repo, xs, ys);
    if k in Keys(digest, run.repo, xs + ys) {
      LastOfConcat(digest, run.repo, xs, ys, k);
      hide Keys, LastOf;
      var before := if k in files then files[k].branches else {};
      assert before + {run.branch} + {run.branch} == before + {run.branch};
    }
  }

  function Flushes(digest: Digest, run: Run, files: map<FileKey, FileRow>, batches: seq<seq<Item>>): map<FileKey, FileRow>
    decreases |batches|
  {
    if batches == [] then files
    else Flushes(digest, run, Upserted(digest, run, files, batches[0]), batches[1..])
  }

  function Joined(batches: seq<seq<Item>>): seq<Item> {
    if batches == [] then [] else batches[0] + Joined(batches[1..])
  }

  /** The rows after any split of the items into batches are those of one big batch. */
  lemma {:induction false} BatchBoundariesDoNotShow(
    digest: Digest, run: Run, files: map<FileKey, FileRow>, batches: seq<seq<Item>>)
    ensures Flushes(digest, run, files, batches) == Upserted(digest, run, files, Joined(batches))
    decreases |batches|
  {
    if batches == [] {
      assert Upserted(digest, run, files, []) == files;
    } else {
      BatchBoundariesDoNotShow(digest, run, Upserted(digest, run, files, batches[0]), batches[1..]);
      UpsertConcat(digest, run, files, batches[0], Joined(batches[1..]));
    }
  }

  function Joining(run: Run, files: map<FileKey, FileRow>, keys: set<FileKey>): map<FileKey, FileRow> {
    map k | k in files :: if k in keys then files[k].(branches := files[k].branches + {run.branch}) else files[k]
  }

  /** The branches a row keeps through the sweep of `run`. */
  function Kept(run: Run, seen: set<FileKey>, k: FileKey, row: FileRow): set<string> {
    if k.repo == run.repo && k !in seen then row.branches - {run.branch} else row.branches
  }

  /** The sweep, which an empty seen-set skips. */
  function Swept(run: Run, files: map<FileKey, FileRow>, seen: set<FileKey>): map<FileKey, FileRow> {
    if run.items == [] then files
    else
      map k | k in files && (k.repo == run.repo ==> Kept(run, seen, k, files[k]) != {}) ::
        files[k].(branches := Kept(run, seen, k, files[k]))
  }

  function FinalStamp(registry: map<(string, string), Stamp>, run: Run): Stamp {
    Stamp(Some(run.head), if run.items == [] then Baseline(registry, run).version else Some(run.version))
  }

  function Seen(digest: Digest, run: Run): set<FileKey> {
    Keys(digest, run.repo, run.items)
  }

  /** The rows after the writes of `run` and before its sweep. */
  function Written(c: Corpus, digest: Digest, run: Run): map<FileKey, FileRow> {
    Joining(run,
      Upserted(digest, run, c.files, OfClass(c, digest, run, run.items, Changed)),
      Keys(digest, run.repo, OfClass(c, digest, run, run.items, MembershipOnly)))
  }

  function WrittenAt(c: Corpus, digest: Digest, run: Run, files: map<FileKey, FileRow>): map<FileKey, int> {
    map k | k in files ::
      if k in Keys(digest, run.repo, OfClass(c, digest, run, run.items, Changed)) then run.version
      else if k in c.writtenAt then c.writtenAt[k]
      else run.version
  }

  // ------------------------------------------------------------------ what index_repo must leave behind

  function BranchesOf(c: Corpus, k: FileKey): set<string> {
    if k in c.files then c.files[k].branches else {}
  }

  /** Does the sweep of `run` take the branch off row `k`? */
  predicate SweptOff(digest: Digest, run: Run, k: FileKey) {
    run.items != [] && k.repo == run.repo && k !in Seen(digest, run)
  }

  /** The branches row `k` has after `run`. */
  function BranchesAfter(c: Corpus, digest: Digest, run: Run, k: FileKey): set<string> {
    if k in Seen(digest, run) then BranchesOf(c, k) + {run.branch}
    else if SweptOff(digest, run, k) then BranchesOf(c, k) - {run.branch}
    else BranchesOf(c, k)
  }

  /**
   Row `k` after `run`: gone if the sweep emptied it, rewritten from the last
   item with its key if the run classified it as changed, and otherwise as it
   was except for its branches.
   */
  ghost predicate RowOutcome(c: Corpus, digest: Digest, run: Run, after: Corpus, k: FileKey) {
    && (k in after.files <==>
          k in Seen(digest, run)
          || (k in c.files && (SweptOff(digest, run, k) ==> BranchesAfter(c, digest, run, k) != {})))
    && (k in after.files ==> after.files[k].branches == BranchesAfter(c, digest, run, k))
    && (k in after.files ==> k in after.writtenAt)
    && (k in after.files && k in Seen(digest, run) && Classify(c, run, k) == Changed ==>
          && after.files[k] == WrittenRow(run, LastOf(digest, run.repo, run.items, k), BranchesOf(c, k))
          && after.writtenAt[k] == run.version)
    && (k in after.files && !(k in Seen(digest, run) && Classify(c, run, k) == Changed) ==>
          && k in c.files
          && after.files[k] == c.files[k].(branches := after.files[k].branches)
          && (k in c.writtenAt ==> after.writtenAt[k] == c.writtenAt[k]))
  }

  /** The corpus after a committed `index_repo`, row by row. */
  ghost predicate Indexed(c: Corpus, digest: Digest, run: Run, after: Corpus) {
    && after.repos == WithRepo(c.repos, run)
    && after.registry == WithBranch(c.registry, run)[(run.repo, run.branch) := FinalStamp(c.registry, run)]
    && after.writtenAt.Keys == after.files.Keys
    && forall k: FileKey :: RowOutcome(c, digest, run, after, k)
  }

  /** A seen key is written exactly when its class says so. */
  lemma KeyClass(c: Corpus, digest: Digest, run: Run, items: seq<Item>, cls: Class, k: FileKey)
    requires k in Keys(digest, run.repo, items)
    ensures k in Keys(digest, run.repo, OfClass(c, digest, run, items, cls)) <==> Classify(c, run, k) == cls
  {
    OfClassMembers(c, digest, run, items, cls);
    var i :| 0 <= i < |items| && KeyOf(digest, run.repo, items[i]) == k;
    var xs := OfClass(c, digest, run, items, cls);
    if Classify(c, run, k) == cls {
      assert items[i] in items && items[i] in xs;
      var j :| 0 <= j < |xs| && xs[j] == items[i];
    }
  }

  lemma UnseenInNoClass(c: Corpus, digest: Digest, run: Run, k: FileKey)
    requires k !in Seen(digest, run)
    ensures forall cls :: k !in Keys(digest, run.repo, OfClass(c, digest, run, run.items, cls))
  {
    forall cls
      ensures k !in Keys(digest, run.repo, OfClass(c, digest, run, run.items, cls))
    {
      OfClassMembers(c, digest, run, run.items, cls);
    }
  }

  /** All items with one key fall in one class, so the last of them is the last of its class. */
  lemma {:induction false} LastOfClass(c: Corpus, digest: Digest, run: Run, items: seq<Item>, k: FileKey)
    requires k in Keys(digest, run.repo, items)
    requires k in Keys(digest, run.repo, OfClass(c, digest, run, items, Classify(c, run, k)))
    ensures LastOf(digest, run.repo, OfClass(c, digest, run, items, Classify(c, run, k)), k)
         == LastOf(digest, run.repo, items, k)
    decreases |items|
  {
    var n := |items| - 1;
    var cls := Classify(c, run, k);
    var front, last := OfClass(c, digest, run, items[..n], cls), items[n];
    var tail := if Classify(c, run, KeyOf(digest, run.repo, last)) == cls then [last] else [];
    assert OfClass(c, digest, run, items, cls) == front + tail;
    LastOfConcat(digest, run.repo, front, tail, k);
    if KeyOf(digest, run.repo, last) != k {
      assert items == items[..n] + [last];
      KeysConcat(digest, run.repo, items[..n], [last]);
      KeysConcat(digest, run.repo, front, tail);
      LastOfClass(c, digest, run, items[..n], k);
    }
  }

  /** The statements of a run, in their order, leave each row as `Indexed` says. */
  lemma StatementsGiveRow(c: Corpus, digest: Digest, run: Run, after: Corpus, k: FileKey)
    requires after.files == Swept(run, Written(c, digest, run), Seen(digest, run))
    requires after.writtenAt == WrittenAt(c, digest, run, after.files)
    ensures RowOutcome(c, digest, run, after, k)
  {
    var changed := OfClass(c, digest, run, run.items, Changed);
    var member := OfClass(c, digest, run, run.items, MembershipOnly);
    var upserted := Upserted(digest, run, c.files, changed);
    var written := Written(c, digest, run);
    if k in Seen(digest, run) {
      KeyClass(c, digest, run, run.items, Changed, k);
      KeyClass(c, digest, run, run.items, MembershipOnly, k);
      if Classify(c, run, k) == Changed {
        LastOfClass(c, digest, run, run.items, k);
        assert written[k] == upserted[k];
      } else {
        assert upserted[k] == c.files[k];
        assert written[k].branches == BranchesOf(c, k) + {run.branch};
      }
    } else {
      UnseenInNoClass(c, digest, run, k);
      assert k in written <==> k in c.files;
      assert k in written ==> written[k] == c.files[k];
    }
  }

  /** The statements of a run, in their order, amount to `Indexed`. */
  lemma StatementsIndex(c: Corpus, digest: Digest, run: Run, after: Corpus)
    requires after.repos == WithRepo(c.repos, run)
    requires after.registry == WithBranch(c.registry, run)[(run.repo, run.branch) := FinalStamp(c.registry, run)]
    requires after.files == Swept(run, Written(c, digest, run), Seen(digest, run))
    requires after.writtenAt == WrittenAt(c, digest, run, after.files)
    ensures Indexed(c, digest, run, after)
  {
    forall k: FileKey
      ensures RowOutcome(c, digest, run, after, k)
    {
      StatementsGiveRow(c, digest, run, after, k);
    }
  }

  /** The row holds the file of some item of the run, as extracted, under the head the run indexed. */
  ghost predicate HoldsItem(digest: Digest, run: Run, k: FileKey, row: FileRow) {
    exists item <- run.items ::
      && k == FileKey(run.repo, item.pf.path, digest(item.pf.content))
      && row.lang == item.pf.lang && row.size == item.pf.size && row.content == item.pf.content
      && row.extraction == item.extraction && row.commit == run.head
  }

  /** The row of a key that the run had before it is as it was, but for its branches. */
  predicate HoldsOld(c: Corpus, k: FileKey, row: FileRow) {
    k in c.files && row == c.files[k].(branches := row.branches)
  }

  /**
   A committed run in plain terms. Every row holds what it held or a file of the run
   under its head; a row it adds is on the run's branch alone; every file of the run has
   a row, on its branch. The branch is stamped with the head and, unless nothing was
   parsed, with the version; no other stamp changes.
   */
  lemma IndexedLeaves(c: Corpus, digest: Digest, run: Run, after: Corpus)
    requires Indexed(c, digest, run, after)
    ensures forall k <- after.files.Keys :: HoldsOld(c, k, after.files[k]) || HoldsItem(digest, run, k, after.files[k])
    ensures forall k <- after.files.Keys :: k !in c.files ==>
      HoldsItem(digest, run, k, after.files[k]) && after.files[k].branches == {run.branch}
    ensures forall item <- run.items ::
      var k := FileKey(run.repo, item.pf.path, digest(item.pf.content)); k in after.files && run.branch in after.files[k].branches
    ensures after.registry.Keys == c.registry.Keys + {(run.repo, run.branch)}
    ensures forall rb <- c.registry.Keys :: rb != (run.repo, run.branch) ==> after.registry[rb] == c.registry[rb]
    ensures after.registry[(run.repo, run.branch)].commit == Some(run.head)
    ensures after.registry[(run.repo, run.branch)].version ==
      if run.items != [] then Some(run.version)
      else if (run.repo, run.branch) in c.registry then c.registry[(run.repo, run.branch)].version else None
  {
    hide Classify;
    forall k | k in after.files
      ensures HoldsOld(c, k, after.files[k]) || HoldsItem(digest, run, k, after.files[k])
      ensures k !in c.files ==> HoldsItem(digest, run, k, after.files[k]) && after.files[k].branches == {run.branch}
    {
      assert RowOutcome(c, digest, run, after, k);
      if k in Seen(digest, run) && Classify(c, run, k) == Changed {
        assert LastOf(digest, run.repo, run.items, k) in run.items;
      }
    }
    forall item | item in run.items
      ensures KeyOf(digest, run.repo, item) in after.files && run.branch in after.files[KeyOf(digest, run.repo, item)].branches
    {
      var i :| 0 <= i < |run.items| && run.items[i] == item;
      assert KeyOf(digest, run.repo, run.items[i]) in Seen(digest, run);
      assert RowOutcome(c, digest, run, after, KeyOf(digest, run.repo, item));
    }
  }

  // ------------------------------------------------------------------ reconciliation

  /** The entries that survive sanitising: an entry that is no string, or empty, is dropped. */
  function Sane(entries: seq<Option<string>>): set<string> {
    set i | 0 <= i < |entries| && entries[i].Some? && entries[i].value != "" :: entries[i].value
  }

  function Retired(c: Corpus, repo: string, gone: set<string>): Corpus {
    if repo !in c.repos || gone == {} then c
    else
      var files := map k | k in c.files && (k.repo == repo ==> c.files[k].branches - gone != {}) ::
        if k.repo == repo then c.files[k].(branches := c.files[k].branches - gone) else c.files[k];
      Corpus(
        c.repos,
        map rb | rb in c.registry && !(rb.0 == repo && rb.1 in gone) :: c.registry[rb],
        files,
        map k | k in files && k in c.writtenAt :: c.writtenAt[k])
  }

  function Purged(c: Corpus, desired: set<string>): Corpus {
    var victims := c.repos.Keys - desired;
    Corpus(
      map r | r in c.repos && r in desired :: c.repos[r],
      map rb | rb in c.registry && rb.0 !in victims :: c.registry[rb],
      map k | k in c.files && k.repo !in victims :: c.files[k],
      map k | k in c.writtenAt && k.repo !in victims :: c.writtenAt[k])
  }
}
