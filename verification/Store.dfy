module IndexStore {
  // The store the indexer writes through (indexer/store.py): one transaction per
  // (repo, branch), a batched write path behind the semantics gate, the membership
  // sweep, the compare-and-set stamp and the two reconciliation primitives.

  import opened Wrappers
  import opened Languages
  import opened Tables

  const BATCH_MAX_FILES: nat := 500
  const BATCH_MAX_CONTENT_BYTES: nat := 8 * 1024 * 1024

  /** How a transaction ended: an aborted one leaves no trace. */
  datatype Outcome = Committed(files: nat, swept: nat) | Aborted

  datatype ReconcileCounts = ReconcileCounts(branchesRemoved: nat, filesStripped: nat, filesDeleted: nat)

  class Store {
    const digest: Digest
    var repos: map<string, Option<string>>
    var registry: map<(string, string), Stamp>
    var files: map<FileKey, FileRow>
    ghost var writtenAt: map<FileKey, int>

    constructor (digest: Digest)
      ensures View() == Corpus(map[], map[], map[], map[]) && this.digest == digest
    {
      this.digest := digest;
      repos, registry, files, writtenAt := map[], map[], map[], map[];
    }

    ghost function View(): Corpus
      reads this
    {
      Corpus(repos, registry, files, writtenAt)
    }

    /**
     Index one branch. `failsAfter` is the number of items after which the item
     source raises, if it does: then everything is rolled back.
     */
    method IndexRepo(run: Run, failsAfter: Option<nat>) returns (outcome: Outcome)
      modifies this
      ensures outcome == Aborted <==> failsAfter.Some? && failsAfter.value <= |run.items|
      ensures outcome != Aborted ==>
        outcome == Committed(|run.items|, if run.items == [] then 0 else |Stale(old(files), run, Seen(digest, run))|)
      ensures outcome.Committed? ==> Indexed(old(View()), digest, run, View())
      ensures outcome == Aborted ==> View() == old(View())
      ensures outcome.Committed? && run.isDefault ==> run.repo in repos && repos[run.repo] == Some(run.branch)
      ensures outcome.Committed? && !run.isDefault ==>
        run.repo in repos && repos[run.repo] == if run.repo in old(repos) then old(repos)[run.repo] else None
      ensures forall r | r != run.repo ::
        (r in repos <==> r in old(repos)) && (r in repos ==> repos[r] == old(repos)[r])
    {
      ghost var before := View();
      var oldRepos, oldRegistry, oldFiles := repos, registry, files;
      var baseline, seen, raised := WriteRows(before, run, failsAfter);
      if raised {
        repos, registry, files := oldRepos, oldRegistry, oldFiles;
        return Aborted;
      }
      WritesKeepStale(before, digest, run);
      var swept := SweepMembership(run, seen);
      var stamped := StampRepoBranch(run, baseline, run.items != []);
      assert stamped;  // one writer per (repo, branch): the stale-index error cannot be raised here
      writtenAt := WrittenAt(before, digest, run, files);
      StatementsIndex(before, digest, run, View());
      return Committed(|run.items|, swept);
    }

    /** Everything up to the sweep: the repo and branch rows, then every file row. */
    method WriteRows(ghost before: Corpus, run: Run, failsAfter: Option<nat>)
      returns (baseline: Stamp, seen: set<FileKey>, raised: bool)
      requires View() == before
      modifies this`repos, this`registry, this`files
      ensures raised <==> failsAfter.Some? && failsAfter.value <= |run.items|
      ensures baseline == Baseline(before.registry, run)
      ensures registry == WithBranch(before.registry, run)
      ensures (run.repo, run.branch) in registry && registry[(run.repo, run.branch)] == baseline
      ensures !raised ==>
        repos == WithRepo(before.repos, run) && files == Written(before, digest, run) && seen == Seen(digest, run)
      ensures !raised ==> run.repo in repos
      ensures !raised && run.isDefault ==> repos[run.repo] == Some(run.branch)
      ensures !raised && !run.isDefault ==>
        repos[run.repo] == if run.repo in before.repos then before.repos[run.repo] else None
    {
      UpsertRepo(run);
      baseline := UpsertRepoBranch(run);
      var deltaOn := baseline.version == Some(run.version);
      var carried, present, membershipOk := {}, {}, false;
      if deltaOn {
        carried := set k | k in files && k.repo == run.repo && run.branch in files[k].branches;
        present := set k | k in files && k.repo == run.repo;
        membershipOk := WhollyAt(registry, run.repo, run.version);
      }
      var membership;
      seen, membership, raised := WriteItems(before, run, failsAfter, deltaOn, membershipOk, carried, present);
      if !raised && membership != [] {
        UnionMembership(run, membership);
      }
    }

    /**
     The classification loop: unchanged files cost nothing, membership-only files
     are returned for one union, and all others are written in batches.
     */
    method WriteItems(ghost before: Corpus, run: Run, failsAfter: Option<nat>, deltaOn: bool, membershipOk: bool,
                      carried: set<FileKey>, present: set<FileKey>)
      returns (seen: set<FileKey>, membership: seq<Item>, raised: bool)
      requires files == before.files
      requires deltaOn == GateOpen(before, run)
      requires deltaOn ==> membershipOk == WhollyAt(before.registry, run.repo, run.version)
      requires deltaOn ==> forall k: FileKey | k.repo == run.repo ::
        && (k in present <==> k in before.files)
        && (k in carried <==> k in before.files && run.branch in before.files[k].branches)
      modifies this`files
      ensures raised <==> failsAfter.Some? && failsAfter.value <= |run.items|
      ensures !raised ==>
        && seen == Seen(digest, run)
        && membership == OfClass(before, digest, run, run.items, MembershipOnly)
        && files == Upserted(digest, run, before.files, OfClass(before, digest, run, run.items, Changed))
    {
      var batch, batchBytes := [], 0;
      seen, membership := {}, [];
      NothingYet(before, run);
      hide Progress, Upserted, OfClass, GateOpen, WhollyAt, Classify;
      for i := 0 to |run.items|
        invariant failsAfter.Some? ==> i <= failsAfter.value
        invariant Progress(before, run, i, seen, membership, files, batch)
      {
        if failsAfter == Some(i) {
          return seen, membership, true;
        }
        var item := run.items[i];
        var key := KeyOf(digest, run.repo, item);
        NextItem(before, run, i, seen, membership, files, batch);
        Classified(before, run, deltaOn, membershipOk, carried, present, key);
        seen := seen + {key};

        if deltaOn && key in carried {
          continue;
        }
        if deltaOn && membershipOk && key in present {
          membership := membership + [item];
          continue;
        }
        batch := batch + [item];
        batchBytes := batchBytes + item.pf.size;
        if |batch| >= BATCH_MAX_FILES || batchBytes >= BATCH_MAX_CONTENT_BYTES {
          Flushing(before, run, i + 1, seen, membership, files, batch);
          FlushFileBatch(run, batch);
          batch, batchBytes := [], 0;
        }
      }
      if failsAfter == Some(|run.items|) {
        return seen, membership, true;
      }
      if batch != [] {
        Flushing(before, run, |run.items|, seen, membership, files, batch);
        FlushFileBatch(run, batch);
      }
      AllWritten(before, run, seen, membership, files);
      return seen, membership, false;
    }

    /** `i` items are classified; flushing `batch` would complete the writes of those that changed. */
    ghost predicate Progress(before: Corpus, run: Run, i: nat, seen: set<FileKey>, membership: seq<Item>,
                             files: map<FileKey, FileRow>, batch: seq<Item>)
    {
      && i <= |run.items|
      && seen == Keys(digest, run.repo, run.items[..i])
      && membership == OfClass(before, digest, run, run.items[..i], MembershipOnly)
      && Upserted(digest, run, files, batch)
         == Upserted(digest, run, before.files, OfClass(before, digest, run, run.items[..i], Changed))
    }

    lemma NothingYet(before: Corpus, run: Run)
      ensures Progress(before, run, 0, {}, [], before.files, [])
    {
    }

    lemma NextItem(before: Corpus, run: Run, i: nat, seen: set<FileKey>, membership: seq<Item>,
                   files: map<FileKey, FileRow>, batch: seq<Item>)
      requires i < |run.items| && Progress(before, run, i, seen, membership, files, batch)
      ensures var item := run.items[i];
        var cls := Classify(before, run, KeyOf(digest, run.repo, item));
        Progress(before, run, i + 1, seen + {KeyOf(digest, run.repo, item)},
          if cls == MembershipOnly then membership + [item] else membership,
          files, if cls == Changed then batch + [item] else batch)
    {
      hide Upserted, OfClass, Classify, Keys;
      SeenSnoc(run.items, run.repo, i);
      OfClassSnoc(before, digest, run, run.items, i, Changed);
      OfClassSnoc(before, digest, run, run.items, i, MembershipOnly);
      var done := OfClass(before, digest, run, run.items[..i], Changed);
      UpsertConcat(digest, run, files, batch, [run.items[i]]);
      UpsertConcat(digest, run, before.files, done, [run.items[i]]);
      assert done + [] == done && membership + [] == membership;
    }

    lemma Flushing(before: Corpus, run: Run, i: nat, seen: set<FileKey>, membership: seq<Item>,
                   files: map<FileKey, FileRow>, batch: seq<Item>)
      requires Progress(before, run, i, seen, membership, files, batch)
      ensures Progress(before, run, i, seen, membership, Upserted(digest, run, files, batch), [])
    {
      hide OfClass;
      UpsertConcat(digest, run, files, batch, []);
      assert batch + [] == batch;
    }

    lemma AllWritten(before: Corpus, run: Run, seen: set<FileKey>, membership: seq<Item>, files: map<FileKey, FileRow>)
      requires Progress(before, run, |run.items|, seen, membership, files, [])
      ensures seen == Seen(digest, run)
      ensures membership == OfClass(before, digest, run, run.items, MembershipOnly)
      ensures files == Upserted(digest, run, before.files, OfClass(before, digest, run, run.items, Changed))
    {
      hide OfClass;
      assert run.items[..|run.items|] == run.items;
      assert files == Upserted(digest, run, files, []);
    }

    static lemma Classified(before: Corpus, run: Run, deltaOn: bool, membershipOk: bool,
                            carried: set<FileKey>, present: set<FileKey>, key: FileKey)
      requires key.repo == run.repo && deltaOn == GateOpen(before, run)
      requires deltaOn ==> membershipOk == WhollyAt(before.registry, run.repo, run.version)
      requires deltaOn ==> (key in present <==> key in before.files)
      requires deltaOn ==> (key in carried <==> key in before.files && run.branch in before.files[key].branches)
      ensures Classify(before, run, key) ==
        if deltaOn && key in carried then Unchanged
        else if deltaOn && membershipOk && key in present then MembershipOnly else Changed
    {
    }

    lemma SeenSnoc(items: seq<Item>, repo: string, i: nat)
      requires i < |items|
      ensures Keys(digest, repo, items[..i + 1]) == Keys(digest, repo, items[..i]) + {KeyOf(digest, repo, items[i])}
    {
      assert items[..i + 1] == items[..i] + [items[i]];
      KeysConcat(digest, repo, items[..i], [items[i]]);
      assert [items[i]][0] == items[i];
    }

    /** The rows a sweep takes the branch off. */
    static function Stale(files: map<FileKey, FileRow>, run: Run, seen: set<FileKey>): set<FileKey> {
      set k | k in files && k.repo == run.repo && run.branch in files[k].branches && k !in seen
    }

    static lemma WritesKeepStale(before: Corpus, digest: Digest, run: Run)
      ensures Stale(Written(before, digest, run), run, Seen(digest, run)) == Stale(before.files, run, Seen(digest, run))
    {
      var written := Written(before, digest, run);
      forall k | k !in Seen(digest, run)
        ensures (k in written <==> k in before.files) && (k in written ==> written[k] == before.files[k])
      {
        UnseenInNoClass(before, digest, run, k);
      }
    }

    method UpsertRepo(run: Run)
      modifies this`repos
      ensures repos == WithRepo(old(repos), run)
    {
      if run.isDefault {
        repos := repos[run.repo := Some(run.branch)];
      } else if run.repo !in repos {
        repos := repos[run.repo := None];
      }
    }

    method UpsertRepoBranch(run: Run) returns (baseline: Stamp)
      modifies this`registry
      ensures registry == WithBranch(old(registry), run)
      ensures baseline == Baseline(old(registry), run)
    {
      if (run.repo, run.branch) !in registry {
        registry := registry[(run.repo, run.branch) := NO_STAMP];
      }
      baseline := registry[(run.repo, run.branch)];
    }

    /** The last occurrence of a duplicate key wins. */
    method Deduplicate(run: Run, batch: seq<Item>) returns (deduped: map<FileKey, Item>)
      ensures deduped.Keys == Keys(digest, run.repo, batch)
      ensures forall k <- deduped.Keys :: deduped[k] == LastOf(digest, run.repo, batch, k)
    {
      deduped := map[];
      for i := 0 to |batch|
        invariant deduped.Keys == Keys(digest, run.repo, batch[..i])
        invariant forall k <- deduped.Keys :: deduped[k] == LastOf(digest, run.repo, batch[..i], k)
      {
        ghost var next := batch[..i] + [batch[i]];
        assert batch[..i + 1] == next;
        KeysConcat(digest, run.repo, batch[..i], [batch[i]]);
        assert [batch[i]][0] == batch[i];
        forall k | k in Keys(digest, run.repo, next)
          ensures LastOf(digest, run.repo, next, k)
               == if k == KeyOf(digest, run.repo, batch[i]) then batch[i] else LastOf(digest, run.repo, batch[..i], k)
        {
          LastOfConcat(digest, run.repo, batch[..i], [batch[i]], k);
        }
        deduped := deduped[KeyOf(digest, run.repo, batch[i]) := batch[i]];
      }
      assert batch[..|batch|] == batch;
    }

    /** Write one batch in one upsert. */
    method FlushFileBatch(run: Run, batch: seq<Item>)
      modifies this`files
      ensures files == Upserted(digest, run, old(files), batch)
    {
      var deduped := Deduplicate(run, batch);
      files := map k | k in files.Keys + deduped.Keys ::
        if k in deduped then WrittenRow(run, deduped[k], if k in files then files[k].branches else {}) else files[k];
    }

    /** Union the branch into every membership-only row, in one statement. */
    method UnionMembership(run: Run, membership: seq<Item>)
      modifies this`files
      ensures files == Joining(run, old(files), Keys(digest, run.repo, membership))
    {
      var keys := set i | 0 <= i < |membership| :: KeyOf(digest, run.repo, membership[i]);
      files := map k | k in files ::
        if k in keys then files[k].(branches := files[k].branches + {run.branch}) else files[k];
    }

    /** Strip the branch from every row it did not see, then delete the rows this empties. */
    method SweepMembership(run: Run, seen: set<FileKey>) returns (swept: nat)
      requires seen == Seen(digest, run)
      modifies this`files
      ensures files == Swept(run, old(files), seen)
      ensures swept == if run.items == [] then 0 else |Stale(old(files), run, seen)|
    {
      if run.items == [] {
        return 0;
      }
      hide Stale, Swept, Stripped, Pruned;
      var stripped := Stale(files, run, seen);
      SweepIsTwoStatements(files, run, seen);
      files := Stripped(files, run, stripped);
      files := Pruned(files, run);
      swept := |stripped|;
    }

    /** The first statement of a sweep: the branch leaves the stale rows. */
    static function Stripped(files: map<FileKey, FileRow>, run: Run, stale: set<FileKey>): map<FileKey, FileRow> {
      map k | k in files ::
        if k in stale then files[k].(branches := files[k].branches - {run.branch}) else files[k]
    }

    /** The second: rows of the repo without a branch are deleted. */
    static function Pruned(files: map<FileKey, FileRow>, run: Run): map<FileKey, FileRow> {
      map k | k in files && !(k.repo == run.repo && files[k].branches == {}) :: files[k]
    }

    static lemma SweepIsTwoStatements(files: map<FileKey, FileRow>, run: Run, seen: set<FileKey>)
      requires run.items != []
      ensures Pruned(Stripped(files, run, Stale(files, run, seen)), run) == Swept(run, files, seen)
    {
      forall k | k in files
        ensures (if k in Stale(files, run, seen) then files[k].branches - {run.branch} else files[k].branches)
          == Kept(run, seen, k, files[k])
      {
      }
      assert Pruned(Stripped(files, run, Stale(files, run, seen)), run).Keys == Swept(run, files, seen).Keys;
    }

    /** Compare-and-set on the baseline; a run that saw nothing holds the version back. */
    method StampRepoBranch(run: Run, baseline: Stamp, seenAny: bool) returns (stamped: bool)
      modifies this`registry
      ensures stamped <==> (run.repo, run.branch) in old(registry) && old(registry)[(run.repo, run.branch)] == baseline
      ensures !stamped ==> registry == old(registry)
      ensures stamped ==> registry == old(registry)[(run.repo, run.branch) :=
        Stamp(Some(run.head), if seenAny then Some(run.version) else baseline.version)]
    {
      var rb := (run.repo, run.branch);
      stamped := rb in registry && registry[rb] == baseline;
      if stamped {
        registry := registry[rb := Stamp(Some(run.head), if seenAny then Some(run.version) else baseline.version)];
      }
    }

    /** Take retired branches off one repo; entries that are no non-empty string are ignored. */
    method ReconcileRetiredBranches(repo: string, retired: seq<Option<string>>) returns (counts: ReconcileCounts)
      modifies this
      ensures View() == Retired(old(View()), repo, Sane(retired))
      ensures repo !in old(repos) || Sane(retired) == {} ==> counts == ReconcileCounts(0, 0, 0)
      ensures repo in old(repos) && Sane(retired) != {} ==> counts == ReconcileCounts(
        |set rb | rb in old(registry) && rb.0 == repo && rb.1 in Sane(retired)|,
        |set k | k in old(files) && k.repo == repo && old(files)[k].branches * Sane(retired) != {}|,
        |set k | k in old(files) && k.repo == repo && old(files)[k].branches <= Sane(retired)|)
    {
      var gone := Sane(retired);
      if gone == {} || repo !in repos {
        return ReconcileCounts(0, 0, 0);
      }
      var stripped, emptied := StripBranches(repo, gone);
      var removed := set rb | rb in registry && rb.0 == repo && rb.1 in gone;
      registry := map rb | rb in registry && rb !in removed :: registry[rb];
      writtenAt := map k | k in files && k in writtenAt :: writtenAt[k];
      counts := ReconcileCounts(|removed|, |stripped|, |emptied|);
    }

    /** Strip `gone` from the rows of one repo, then delete the rows this empties. */
    method StripBranches(repo: string, gone: set<string>) returns (stripped: set<FileKey>, emptied: set<FileKey>)
      modifies this`files
      ensures files == map k | k in old(files) && (k.repo == repo ==> old(files)[k].branches - gone != {}) ::
        if k.repo == repo then old(files)[k].(branches := old(files)[k].branches - gone) else old(files)[k]
      ensures stripped == set k | k in old(files) && k.repo == repo && old(files)[k].branches * gone != {}
      ensures emptied == set k | k in old(files) && k.repo == repo && old(files)[k].branches <= gone
    {
      stripped := set k | k in files && k.repo == repo && files[k].branches * gone != {};
      emptied := set k | k in files && k.repo == repo && files[k].branches <= gone;
      forall k | k in files && k.repo == repo && k !in stripped
        ensures files[k].branches - gone == files[k].branches
      {
        DisjointMinus(files[k].branches, gone);
      }
      files := map k | k in files :: if k in stripped then files[k].(branches := files[k].branches - gone) else files[k];
      files := map k | k in files && !(k.repo == repo && files[k].branches == {}) :: files[k];
    }

    static lemma DisjointMinus(a: set<string>, b: set<string>)
      requires a * b == {}
      ensures a - b == a
    {
      assert forall x <- a :: x in b ==> x in a * b;
    }

    /** The keep-set of a purge, refused when any entry cannot be trusted. */
    static method CheckDesired(desired: seq<Option<string>>) returns (keep: Result<set<string>, string>)
      ensures keep.Ok? <==> desired != [] && forall e <- desired :: e.Some? && e.value != ""
      ensures keep.Ok? ==> keep.value == Sane(desired)
    {
      if desired == [] {
        return Err("desired_repos must not be empty");
      }
      var names := {};
      for i := 0 to |desired|
        invariant forall e <- desired[..i] :: e.Some? && e.value != ""
        invariant names == Sane(desired[..i])
      {
        assert desired[i] in desired;
        if desired[i].None? || desired[i].value == "" {
          return Err("desired_repos must contain only non-empty strings");
        }
        names := names + {desired[i].value};
        assert desired[..i + 1] == desired[..i] + [desired[i]];
      }
      assert desired[..|desired|] == desired;
      return Ok(names);
    }

    /** Purge every repo outside the keep-set. */
    method ReconcileRemovedRepos(desired: seq<Option<string>>) returns (purged: Result<set<string>, string>)
      modifies this
      ensures purged.Ok? <==> desired != [] && forall e <- desired :: e.Some? && e.value != ""
      ensures purged.Ok? ==> View() == Purged(old(View()), Sane(desired)) && purged.value == old(repos).Keys - Sane(desired)
      ensures purged.Err? ==> View() == old(View())
    {
      var keep :- CheckDesired(desired);
      var victims := repos.Keys - keep;
      registry := map rb | rb in registry && rb.0 !in victims :: registry[rb];
      files := map k | k in files && k.repo !in victims :: files[k];
      writtenAt := map k | k in writtenAt && k.repo !in victims :: writtenAt[k];
      repos := map r | r in repos && r in keep :: repos[r];
      return Ok(victims);
    }
  }
}
