module Job {
  // One indexing run over all configured repos (indexer/job.py): repo workers in any
  // interleaving, the tally of their outcomes, the gate of the reconciliation
  // checkpoint, and the checkpoint itself.

  import opened Wrappers
  import opened Tables
  import opened CorpusHistory
  import opened IndexStore

  datatype Status = Done | Skipped | Conflicted | Failed

  datatype BranchOutcome = BranchOutcome(branch: string, status: Status)

  /** `complete` is false when the soft branch cap truncated the repo's branch list. */
  datatype RepoOutcome = RepoOutcome(name: string, complete: bool, outcomes: seq<BranchOutcome>)

  function Resolved(o: RepoOutcome): set<string> {
    set i | 0 <= i < |o.outcomes| :: o.outcomes[i].branch
  }

  predicate DistinctNames(outcomes: seq<RepoOutcome>) {
    forall i, j | 0 <= i < j < |outcomes| :: outcomes[i].name != outcomes[j].name
  }

  function Names(outcomes: seq<RepoOutcome>): set<string> {
    set i | 0 <= i < |outcomes| :: outcomes[i].name
  }

  // ------------------------------------------------------------------ the fan-out

  /** One branch a worker finished; `run` is what it committed, if it did. */
  datatype BranchEvent = BranchEvent(repo: string, branch: string, status: Status, run: Option<Run>)

  /**
   An indexed branch committed its run. So may have a failed one, when something
   raised behind the transaction; a skipped or conflicted one did not.
   */
  ghost predicate EventApplies(digest: Digest, e: BranchEvent, before: Corpus, after: Corpus) {
    && (e.status == Done ==> e.run.Some?)
    && (e.run.Some? ==> e.status == Done || e.status == Failed)
    && if e.run.Some? then
         e.run.value.repo == e.repo && e.run.value.branch == e.branch && Indexed(before, digest, e.run.value, after)
       else after == before
  }

  /** The corpora of a fan-out, whatever the order in which the workers' branches ended. */
  ghost predicate IsFanOut(digest: Digest, events: seq<BranchEvent>, corpora: seq<Corpus>) {
    && |corpora| == |events| + 1
    && forall i | 0 <= i < |events| :: EventApplies(digest, events[i], corpora[i], corpora[i + 1])
  }

  predicate ReportsEvent(o: RepoOutcome, e: BranchEvent) {
    o.name == e.repo && BranchOutcome(e.branch, e.status) in o.outcomes
  }

  predicate HasEvent(events: seq<BranchEvent>, repo: string, b: BranchOutcome) {
    exists e <- events :: e.repo == repo && e.branch == b.branch && e.status == b.status
  }

  /** The outcomes report exactly the branches that ended. */
  predicate Reports(outcomes: seq<RepoOutcome>, events: seq<BranchEvent>) {
    && (forall e <- events :: exists o <- outcomes :: ReportsEvent(o, e))
    && (forall o <- outcomes :: forall b <- o.outcomes :: HasEvent(events, o.name, b))
  }

  predicate IndexedIn(events: seq<BranchEvent>, repo: string, branch: string) {
    exists e <- events :: e.run.Some? && e.repo == repo && e.branch == branch
  }

  /** A fan-out only adds registry rows, those of the branches it indexed. */
  lemma {:induction false} FanOutRegistry(digest: Digest, events: seq<BranchEvent>, corpora: seq<Corpus>, n: nat)
    requires IsFanOut(digest, events, corpora) && n <= |events|
    ensures forall repo, b :: (repo, b) in corpora[n].registry <==>
      (repo, b) in corpora[0].registry || IndexedIn(events[..n], repo, b)
    ensures forall repo :: repo in corpora[n].repos <==>
      repo in corpora[0].repos || exists b :: IndexedIn(events[..n], repo, b)
    ensures Structured(corpora[0]) ==> Structured(corpora[n])
  {
    if n > 0 {
      FanOutRegistry(digest, events, corpora, n - 1);
      var e, before, after := events[n - 1], corpora[n - 1], corpora[n];
      assert events[..n] == events[..n - 1] + [e];
      assert EventApplies(digest, e, before, after);
      forall repo, b
        ensures IndexedIn(events[..n], repo, b) <==>
          IndexedIn(events[..n - 1], repo, b) || (e.run.Some? && (repo, b) == (e.repo, e.branch))
      {
        if e.run.Some? && (repo, b) == (e.repo, e.branch) {
          assert e in events[..n];
        }
      }
      if e.run.Some? {
        assert IndexedIn(events[..n], e.repo, e.branch);
        if Structured(before) {
          RunKeepsStructure(before, digest, e.run.value, after);
        }
      }
    }
  }

  /** A branch the fan-out did not index carries the rows it carried. */
  lemma {:induction false} FanOutKeepsOtherBranches(
    digest: Digest, events: seq<BranchEvent>, corpora: seq<Corpus>, repo: string, b: string, n: nat)
    requires IsFanOut(digest, events, corpora) && n <= |events|
    requires !IndexedIn(events, repo, b)
    ensures RowsOf(corpora[n], repo, b) == RowsOf(corpora[0], repo, b)
  {
    if n > 0 {
      FanOutKeepsOtherBranches(digest, events, corpora, repo, b, n - 1);
      var e := events[n - 1];
      assert e in events && EventApplies(digest, e, corpora[n - 1], corpora[n]);
      if e.run.Some? {
        OtherBranchKept(corpora[n - 1], digest, e.run.value, corpora[n], repo, b);
      }
    }
  }

  // ------------------------------------------------------------------ the stamp snapshot

  type Fold = string -> string

  /** Resolution drops names that differ only in case, so no two entries share a folded key. */
  predicate FoldsApart(fold: Fold, names: set<string>) {
    forall a, b | a in names && b in names && a != b :: fold(a) != fold(b)
  }

  /** The stamps of the configured repos, keyed by folded name and branch. */
  function ReadStamps(c: Corpus, fold: Fold, names: set<string>): map<(string, string), Stamp>
    requires FoldsApart(fold, names)
  {
    map rb | rb in c.registry && rb.0 in names :: (fold(rb.0), rb.1) := c.registry[rb]
  }

  function Persisted(stamps: map<(string, string), Stamp>, fold: Fold, name: string): set<string> {
    set key | key in stamps && key.0 == fold(name) :: key.1
  }

  function RetiredBranches(stamps: map<(string, string), Stamp>, fold: Fold, o: RepoOutcome): set<string> {
    Persisted(stamps, fold, o.name) - Resolved(o)
  }

  lemma PersistedIsRegistered(c: Corpus, fold: Fold, names: set<string>, name: string, b: string)
    requires FoldsApart(fold, names) && name in names
    ensures b in Persisted(ReadStamps(c, fold, names), fold, name) <==> (name, b) in c.registry
  {
    var stamps := ReadStamps(c, fold, names);
    if (name, b) in c.registry {
      assert (fold((name, b).0), (name, b).1) in stamps;
      assert (fold(name), b) in stamps;
    }
  }

  /**
   Reusing the snapshot from before the fan-out is exact: for every interleaving
   of the workers it names the retired branches a read after the join would name.
   */
  lemma SnapshotNamesRetiredBranches(
    digest: Digest, events: seq<BranchEvent>, corpora: seq<Corpus>, outcomes: seq<RepoOutcome>,
    fold: Fold, names: set<string>, o: RepoOutcome)
    requires IsFanOut(digest, events, corpora) && Reports(outcomes, events)
    requires FoldsApart(fold, names) && DistinctNames(outcomes) && Names(outcomes) <= names
    requires o in outcomes
    ensures RetiredBranches(ReadStamps(corpora[0], fold, names), fold, o)
         == RetiredBranches(ReadStamps(corpora[|events|], fold, names), fold, o)
  {
    var first, last := corpora[0], corpora[|events|];
    FanOutRegistry(digest, events, corpora, |events|);
    assert events[..|events|] == events;
    assert o.name in Names(outcomes);
    forall b
      ensures b in RetiredBranches(ReadStamps(first, fold, names), fold, o)
         <==> b in RetiredBranches(ReadStamps(last, fold, names), fold, o)
    {
      PersistedIsRegistered(first, fold, names, o.name, b);
      PersistedIsRegistered(last, fold, names, o.name, b);
      if IndexedIn(events, o.name, b) {
        EventsAreResolved(outcomes, events, o, b);
      }
    }
  }

  lemma NameIdentifies(outcomes: seq<RepoOutcome>, o: RepoOutcome, p: RepoOutcome)
    requires DistinctNames(outcomes) && o in outcomes && p in outcomes && o.name == p.name
    ensures o == p
  {
    var i :| 0 <= i < |outcomes| && outcomes[i] == o;
    var j :| 0 <= j < |outcomes| && outcomes[j] == p;
    assert i == j;
  }

  lemma EventsAreResolved(outcomes: seq<RepoOutcome>, events: seq<BranchEvent>, o: RepoOutcome, b: string)
    requires Reports(outcomes, events) && DistinctNames(outcomes) && o in outcomes
    requires IndexedIn(events, o.name, b)
    ensures b in Resolved(o)
  {
    var e :| e in events && e.run.Some? && e.repo == o.name && e.branch == b;
    var p :| p in outcomes && ReportsEvent(p, e);
    NameIdentifies(outcomes, o, p);
  }

  // ------------------------------------------------------------------ the checkpoint

  /** The corpus after the retired branches of every listed repo were taken off. */
  function RetireAll(
    c: Corpus, stamps: map<(string, string), Stamp>, fold: Fold, outcomes: seq<RepoOutcome>): Corpus
    decreases |outcomes|
  {
    if outcomes == [] then c
    else
      var n := |outcomes| - 1;
      Retired(
        RetireAll(c, stamps, fold, outcomes[..n]),
        outcomes[n].name,
        RetiredBranches(stamps, fold, outcomes[n]) - {""})
  }

  /** Only the retired branches of the listed repos leave the registry. */
  lemma {:induction false} RetireAllRegistry(
    c: Corpus, stamps: map<(string, string), Stamp>, fold: Fold, outcomes: seq<RepoOutcome>)
    requires Structured(c) && DistinctNames(outcomes)
    ensures var after := RetireAll(c, stamps, fold, outcomes);
      && Structured(after) && after.repos == c.repos
      && (forall name, b | name !in Names(outcomes) :: (name, b) in after.registry <==> (name, b) in c.registry)
      && (forall o <- outcomes :: forall b :: (o.name, b) in after.registry <==>
            (o.name, b) in c.registry && b !in RetiredBranches(stamps, fold, o) - {""})
    decreases |outcomes|
  {
    if outcomes != [] {
      var n := |outcomes| - 1;
      var o := outcomes[n];
      var front := outcomes[..n];
      assert outcomes == front + [o];
      RetireAllRegistry(c, stamps, fold, front);
      var mid := RetireAll(c, stamps, fold, front);
      var gone := RetiredBranches(stamps, fold, o) - {""};
      RetiringShrinks(mid, o.name, gone);
      var after := Retired(mid, o.name, gone);
      assert Structured(after) by {
        forall k | k in after.files
          ensures k.repo in after.repos && Carried(after, k)
        {
          assert ShrunkRow(mid, after, k);
        }
      }
      assert o.name !in Names(front);
      forall name, b
        ensures (name, b) in after.registry <==> (name, b) in mid.registry && !(name == o.name && b in gone)
      {
        if (name, b) in mid.registry {
          assert name in mid.repos by {
            assert (name, b) in mid.registry.Keys;
          }
        }
      }
    }
  }

  /**
   Is a purge of this size withheld? It is when it would remove a repo, and more than
   half of the stored ones.
   */
  predicate PurgeTooBig(stored: set<string>, desired: set<string>) {
    stored - desired != {} && 2 * |stored - desired| > |stored|
  }

  /**
   The guard in its own terms: it passes whatever removes nothing, and it passes a
   purge exactly when at least half of the stored repos stay.
   */
  lemma PurgePassesExactlyWhen(stored: set<string>, desired: set<string>)
    ensures stored <= desired ==> !PurgeTooBig(stored, desired)
    ensures PurgeTooBig(stored, desired) <==> 2 * |stored - desired| > |stored|
    ensures PurgeTooBig(stored, desired) <==> 2 * |stored * desired| < |stored|
  {
    SplitCounts(stored, stored * desired, stored - desired);
    if stored <= desired {
      assert stored - desired == {};
    }
    assert |stored - desired| > 0 ==> stored - desired != {};
  }

  datatype Progress = Progress(
    committedAny: bool,
    branchesRemoved: nat,
    filesStripped: nat,
    filesDeleted: nat,
    purged: set<string>,
    purgeBlocked: bool)

  const NO_PROGRESS := Progress(false, 0, 0, 0, {}, false)

  function AsEntries(names: seq<string>): seq<Option<string>> {
    seq(|names|, i requires 0 <= i < |names| => Some(names[i]))
  }

  /** A set in some order: the original sorts it, and nothing here depends on the order. */
  method Listed(names: set<string>) returns (list: seq<string>)
    ensures forall x :: x in list <==> x in names
  {
    list := [];
    var rest := names;
    while rest != {}
      invariant rest <= names
      invariant forall x :: x in list <==> x in names - rest
      decreases |rest|
    {
      var x :| x in rest;
      list := list + [x];
      rest := rest - {x};
    }
  }

  lemma SaneEntries(names: seq<string>)
    ensures Sane(AsEntries(names)) == (set x | x in names && x != "")
    ensures forall e <- AsEntries(names) :: e.Some? && e.value in names
  {
    var entries := AsEntries(names);
    forall x | x in names && x != ""
      ensures x in Sane(entries)
    {
      var i :| 0 <= i < |names| && names[i] == x;
      assert entries[i] == Some(x);
    }
  }

  /** What the counters have to say: how many registry rows and file rows are gone since `before`. */
  predicate Counted(before: Corpus, after: Corpus, progress: Progress) {
    && progress.branchesRemoved == |before.registry| - |after.registry|
    && progress.filesDeleted == |before.files| - |after.files|
  }

  lemma RetiredRegistryCount(c: Corpus, repo: string, gone: set<string>)
    requires repo in c.repos && gone != {}
    ensures |set rb | rb in c.registry && rb.0 == repo && rb.1 in gone| == |c.registry| - |Retired(c, repo, gone).registry|
  {
    var after := Retired(c, repo, gone);
    var removed := set rb | rb in c.registry && rb.0 == repo && rb.1 in gone;
    assert after.registry == map rb | rb in c.registry && !(rb.0 == repo && rb.1 in gone) :: c.registry[rb];
    hide Retired;
    SplitCounts(c.registry.Keys, after.registry.Keys, removed);
  }

  lemma SplitCounts<K(!new)>(whole: set<K>, part: set<K>, gone: set<K>)
    requires gone <= whole && forall k: K :: k in part <==> k in whole && k !in gone
    ensures |gone| == |whole| - |part|
  {
    assert whole == part + gone && part !! gone;
  }

  /** The rows that retiring `gone` from a repo deletes. */
  function Emptied(c: Corpus, repo: string, gone: set<string>): (emptied: set<FileKey>)
    ensures emptied <= c.files.Keys
  {
    set k | k in c.files && k.repo == repo && c.files[k].branches <= gone
  }

  lemma EmptiedAt(c: Corpus, repo: string, gone: set<string>, k: FileKey)
    requires repo in c.repos && gone != {}
    ensures k in Retired(c, repo, gone).files.Keys <==> k in c.files.Keys && k !in Emptied(c, repo, gone)
  {
    if k in c.files {
      EmptyMinus(c.files[k].branches, gone);
    }
  }

  lemma RetiredFilesCount(c: Corpus, repo: string, gone: set<string>)
    requires repo in c.repos && gone != {}
    ensures |Emptied(c, repo, gone)| == |c.files| - |Retired(c, repo, gone).files|
  {
    hide *;
    forall k: FileKey
      ensures k in Retired(c, repo, gone).files.Keys <==> k in c.files.Keys && k !in Emptied(c, repo, gone)
    {
      EmptiedAt(c, repo, gone, k);
    }
    SplitCounts(c.files.Keys, Retired(c, repo, gone).files.Keys, Emptied(c, repo, gone));
    assert |c.files| == |c.files.Keys|;
  }

  /** What one call of the primitive reports is what it took away. */
  lemma ReportIsExact(c: Corpus, repo: string, gone: set<string>, branchesRemoved: nat, filesDeleted: nat)
    requires repo !in c.repos || gone == {} ==> branchesRemoved == 0 && filesDeleted == 0
    requires repo in c.repos && gone != {} ==>
      && branchesRemoved == |set rb | rb in c.registry && rb.0 == repo && rb.1 in gone|
      && filesDeleted == |Emptied(c, repo, gone)|
    ensures branchesRemoved == |c.registry| - |Retired(c, repo, gone).registry|
    ensures filesDeleted == |c.files| - |Retired(c, repo, gone).files|
  {
    if repo in c.repos && gone != {} {
      hide Retired;
      RetiredRegistryCount(c, repo, gone);
      RetiredFilesCount(c, repo, gone);
    }
  }

  lemma EmptyMinus(a: set<string>, b: set<string>)
    ensures a <= b <==> a - b == {}
  {
    if a - b == {} {
      forall x | x in a
        ensures x in b
      {
        assert x !in a - b;
      }
    }
  }

  /** One repo's retired branches go, and what is reported is what went. */
  method RetireOne(store: Store, repo: string, list: seq<string>) returns (counts: ReconcileCounts)
    modifies store
    ensures store.View() == Retired(old(store.View()), repo, Sane(AsEntries(list)))
    ensures counts.branchesRemoved == |old(store.View()).registry| - |store.View().registry|
    ensures counts.filesDeleted == |old(store.View()).files| - |store.View().files|
  {
    hide Retired, Sane, AsEntries;
    ghost var before := store.View();
    counts := store.ReconcileRetiredBranches(repo, AsEntries(list));
    ReportIsExact(before, repo, Sane(AsEntries(list)), counts.branchesRemoved, counts.filesDeleted);
  }

  lemma NothingCounted(c: Corpus)
    ensures Counted(c, c, NO_PROGRESS)
    ensures !NO_PROGRESS.committedAny && !NO_PROGRESS.purgeBlocked && NO_PROGRESS.purged == {}
  {
  }

  lemma CountedMore(before: Corpus, mid: Corpus, after: Corpus, progress: Progress, counts: ReconcileCounts)
    requires Counted(before, mid, progress)
    requires counts.branchesRemoved == |mid.registry| - |after.registry|
    requires counts.filesDeleted == |mid.files| - |after.files|
    ensures forall p: Progress |
      p.branchesRemoved == progress.branchesRemoved + counts.branchesRemoved &&
      p.filesDeleted == progress.filesDeleted + counts.filesDeleted :: Counted(before, after, p)
  {
  }

  /** The first phase: every repo's retired branches, until a primitive raises. */
  method RetirePhase(
    store: Store, outcomes: seq<RepoOutcome>, stamps: map<(string, string), Stamp>, fold: Fold, raises: nat -> bool)
    returns (progress: Progress, done: nat)
    modifies store
    ensures done <= |outcomes| && (done < |outcomes| ==> raises(done))
    ensures store.View() == RetireAll(old(store.View()), stamps, fold, outcomes[..done])
    ensures !progress.committedAny ==> store.View() == old(store.View())
    ensures Counted(old(store.View()), store.View(), progress)
    ensures !progress.purgeBlocked && progress.purged == {}
  {
    hide *;
    NothingRetired(store.View(), stamps, fold, outcomes);
    ghost var before := store.View();
    progress, done := NO_PROGRESS, 0;
    NothingCounted(before);
    while done < |outcomes|
      invariant done <= |outcomes|
      invariant store.View() == RetireAll(before, stamps, fold, outcomes[..done])
      invariant !progress.committedAny ==> store.View() == before
      invariant Counted(before, store.View(), progress)
      invariant !progress.purgeBlocked && progress.purged == {}
    {
      var o := outcomes[done];
      RetireAllSnoc(before, stamps, fold, outcomes, done);
      var retired := RetiredBranches(stamps, fold, o);
      if retired != {} {
        if raises(done) {
          return;
        }
        var list := Listed(retired);
        SaneEntries(list);
        assert Sane(AsEntries(list)) == retired - {""};
        var counts := RetireOne(store, o.name, list);
        CountedMore(before, RetireAll(before, stamps, fold, outcomes[..done]), store.View(), progress, counts);
        progress := progress.(
          committedAny := true,
          branchesRemoved := progress.branchesRemoved + counts.branchesRemoved,
          filesStripped := progress.filesStripped + counts.filesStripped,
          filesDeleted := progress.filesDeleted + counts.filesDeleted);
      }
      done := done + 1;
    }
  }

  lemma NothingRetired(
    c: Corpus, stamps: map<(string, string), Stamp>, fold: Fold, outcomes: seq<RepoOutcome>)
    ensures RetireAll(c, stamps, fold, outcomes[..0]) == c
  {
  }

  lemma RetireAllSnoc(
    c: Corpus, stamps: map<(string, string), Stamp>, fold: Fold, outcomes: seq<RepoOutcome>, i: nat)
    requires i < |outcomes|
    ensures RetireAll(c, stamps, fold, outcomes[..i + 1])
         == Retired(RetireAll(c, stamps, fold, outcomes[..i]), outcomes[i].name, RetiredBranches(stamps, fold, outcomes[i]) - {""})
    ensures RetiredBranches(stamps, fold, outcomes[i]) == {} ==>
      RetireAll(c, stamps, fold, outcomes[..i + 1]) == RetireAll(c, stamps, fold, outcomes[..i])
  {
    assert outcomes[..i + 1][..i] == outcomes[..i];
  }

  /** The desired names pass the purge's guard as they are. */
  lemma DesiredIsSane(outcomes: seq<RepoOutcome>, list: seq<string>)
    requires outcomes != [] && forall o <- outcomes :: o.name != ""
    requires forall x :: x in list <==> x in Names(outcomes)
    ensures AsEntries(list) != [] && Sane(AsEntries(list)) == Names(outcomes)
    ensures forall e <- AsEntries(list) :: e.Some? && e.value != ""
  {
    SaneEntries(list);
    assert outcomes[0].name in Names(outcomes);
    assert forall x <- Names(outcomes) :: x != "";
  }

  /**
   The second phase. Without a loss, or with one that leaves at least half of the
   stored repos, every repo but the desired ones goes; else the purge is withheld.
   */
  method PurgePhase(store: Store, outcomes: seq<RepoOutcome>) returns (blocked: bool, purged: set<string>)
    requires outcomes != [] && forall o <- outcomes :: o.name != ""
    modifies store
    ensures blocked <==> 2 * |old(store.repos).Keys - Names(outcomes)| > |old(store.repos)|
    ensures old(store.repos).Keys <= Names(outcomes) ==> !blocked
    ensures !blocked ==> 2 * |old(store.repos).Keys * Names(outcomes)| >= |old(store.repos)|
    ensures blocked ==> store.View() == old(store.View()) && purged == {}
    ensures !blocked ==> store.View() == Purged(old(store.View()), Names(outcomes))
    ensures !blocked ==> purged == old(store.repos).Keys - Names(outcomes)
  {
    hide Purged, PurgeTooBig, Names, Sane, AsEntries;
    var desired := Names(outcomes);
    PurgePassesExactlyWhen(store.repos.Keys, desired);
    if PurgeTooBig(store.repos.Keys, desired) {
      return true, {};
    }
    var list := Listed(desired);
    DesiredIsSane(outcomes, list);
    var names := store.ReconcileRemovedRepos(AsEntries(list));
    return false, names.value;
  }

  /**
   The checkpoint. `raises(i)` tells whether the primitive for outcome `i` raises
   (for `|outcomes|`: the purge phase); a primitive that raises commits nothing.
   */
  method Reconcile(
    store: Store, outcomes: seq<RepoOutcome>, stamps: map<(string, string), Stamp>, fold: Fold, raises: nat -> bool)
    returns (progress: Progress, failed: bool)
    requires outcomes != [] && forall o <- outcomes :: o.name != ""
    modifies store
    ensures failed ==>
      exists j | 0 <= j <= |outcomes| :: raises(j) && store.View() == RetireAll(old(store.View()), stamps, fold, outcomes[..j])
    ensures failed ==> Counted(old(store.View()), store.View(), progress)
    ensures !failed ==>
      var retired := RetireAll(old(store.View()), stamps, fold, outcomes);
      && Counted(old(store.View()), retired, progress)
      && progress.purged == (if progress.purgeBlocked then {} else retired.repos.Keys - Names(outcomes))
      && retired.repos == old(store.repos)
      && store.View() == if progress.purgeBlocked then retired else Purged(retired, Names(outcomes))
    ensures failed ==> !progress.purgeBlocked && progress.purged == {}
    ensures !progress.committedAny ==> store.View() == old(store.View())
    ensures !failed ==>
      (progress.purgeBlocked <==> 2 * |old(store.repos).Keys - Names(outcomes)| > |old(store.repos)|)
    ensures !failed && old(store.repos).Keys <= Names(outcomes) ==> !progress.purgeBlocked
    ensures !failed && !progress.purgeBlocked ==> 2 * |old(store.repos).Keys * Names(outcomes)| >= |old(store.repos)|
    ensures failed || progress.purgeBlocked ==> store.repos == old(store.repos)
  {
    hide *;
    ghost var before := store.View();
    RetireAllKeepsRepos(before, stamps, fold, outcomes);
    ViewHasRepos(store);
    var done;
    progress, done := RetirePhase(store, outcomes, stamps, fold, raises);
    ViewHasRepos(store);
    if done < |outcomes| || raises(|outcomes|) {
      RetireAllKeepsRepos(before, stamps, fold, outcomes[..done]);
      return progress, true;
    }
    assert outcomes[..done] == outcomes;
    var blocked, purged := PurgePhase(store, outcomes);
    ViewHasRepos(store);
    SameCounts(before, RetireAll(before, stamps, fold, outcomes), progress);
    if blocked {
      return progress.(purgeBlocked := true), false;
    }
    return progress.(committedAny := true, purged := purged), false;
  }

  lemma ViewHasRepos(store: Store)
    ensures store.View().repos == store.repos
  {
  }

  /** The counters speak of the first phase alone. */
  lemma SameCounts(before: Corpus, after: Corpus, progress: Progress)
    requires Counted(before, after, progress)
    ensures forall p: Progress :: p.branchesRemoved == progress.branchesRemoved && p.filesDeleted == progress.filesDeleted ==>
      Counted(before, after, p)
  {
  }

  // ------------------------------------------------------------------ the whole run

  /** A worker's result: its outcome, or None when it raised before its branch loop. */
  type Future = Option<RepoOutcome>

  predicate Clean(o: RepoOutcome) {
    o.complete && forall b <- o.outcomes :: b.status == Done || b.status == Skipped
  }

  predicate AllClean(futures: seq<Future>) {
    forall f <- futures :: f.Some? && Clean(f.value)
  }

  predicate AnyFailed(futures: seq<Future>) {
    exists f <- futures :: FutureFails(f)
  }

  function Completed(futures: seq<Future>): seq<RepoOutcome> {
    if futures == [] then []
    else
      var n := |futures| - 1;
      Completed(futures[..n]) + if futures[n].Some? then [futures[n].value] else []
  }

  /** Some branch of the repo ended so. */
  predicate BranchWith(o: RepoOutcome, status: Status) {
    exists b <- o.outcomes :: b.status == status
  }

  /** A run fails if a worker raised or a branch failed, and is clean if no branch did, or conflicted, in any repo. */
  lemma FailedAndClean(futures: seq<Future>)
    ensures AnyFailed(futures) <==>
      None in futures || exists o: RepoOutcome :: Some(o) in futures && BranchWith(o, Failed)
    ensures AllClean(futures) <==>
      forall f <- futures :: f.Some? && f.value.complete && !BranchWith(f.value, Failed) && !BranchWith(f.value, Conflicted)
  {
    if f :| f in futures && FutureFails(f) {
      assert f.Some? ==> Some(f.value) in futures && BranchWith(f.value, Failed);
    }
    if o: RepoOutcome :| Some(o) in futures && BranchWith(o, Failed) {
      assert FutureFails(Some(o));
    }
    if None in futures {
      assert FutureFails(None);
    }
    forall f | f in futures && f.Some?
      ensures Clean(f.value) <==> f.value.complete && !BranchWith(f.value, Failed) && !BranchWith(f.value, Conflicted)
    {
    }
  }

  /** The counters of one repo's branches. */
  method TallyBranches(outcomes: seq<BranchOutcome>) returns (conflicts: nat, failures: nat)
    ensures conflicts == 0 <==> forall b <- outcomes :: b.status != Conflicted
    ensures failures == 0 <==> forall b <- outcomes :: b.status != Failed
  {
    conflicts, failures := 0, 0;
    for i := 0 to |outcomes|
      invariant conflicts == 0 <==> forall b <- outcomes[..i] :: b.status != Conflicted
      invariant failures == 0 <==> forall b <- outcomes[..i] :: b.status != Failed
    {
      assert outcomes[..i + 1] == outcomes[..i] + [outcomes[i]];
      match outcomes[i].status
      case Conflicted => conflicts := conflicts + 1;
      case Failed => failures := failures + 1;
      case _ =>
    }
    assert outcomes[..|outcomes|] == outcomes;
  }

  predicate FutureFails(f: Future) {
    f.None? || exists b <- f.value.outcomes :: b.status == Failed
  }

  predicate FutureConflicts(f: Future) {
    f.Some? && exists b <- f.value.outcomes :: b.status == Conflicted
  }

  /** Draining the futures and deciding: reconcile exactly when every repo came back clean and whole. */
  method Drain(futures: seq<Future>) returns (outcomes: seq<RepoOutcome>, failures: nat, reconcile: bool)
    ensures outcomes == Completed(futures)
    ensures failures > 0 <==> AnyFailed(futures)
    ensures reconcile <==> AllClean(futures)
  {
    var conflicts: nat := 0;
    outcomes, failures := [], 0;
    for i := 0 to |futures|
      invariant outcomes == Completed(futures[..i])
      invariant failures > 0 <==> AnyFailed(futures[..i])
      invariant conflicts > 0 <==> AnyConflicted(futures[..i])
    {
      assert futures[..i + 1][..i] == futures[..i];
      AnySnoc(futures, i);
      match futures[i]
      case None =>
        failures := failures + 1;
      case Some(o) =>
        var c, f := TallyBranches(o.outcomes);
        assert c > 0 <==> FutureConflicts(futures[i]);
        assert f > 0 <==> FutureFails(futures[i]);
        conflicts, failures := conflicts + c, failures + f;
        outcomes := outcomes + [o];
    }
    assert futures[..|futures|] == futures;
    reconcile := failures == 0 && conflicts == 0 && |outcomes| == |futures| && forall o <- outcomes :: o.complete;
    CompletedOutcomes(futures);
    CleanExactlyWhen(futures);
  }

  predicate AnyConflicted(futures: seq<Future>) {
    exists f <- futures :: FutureConflicts(f)
  }

  lemma AnySnoc(futures: seq<Future>, i: nat)
    requires i < |futures|
    ensures AnyFailed(futures[..i + 1]) <==> AnyFailed(futures[..i]) || FutureFails(futures[i])
    ensures AnyConflicted(futures[..i + 1]) <==> AnyConflicted(futures[..i]) || FutureConflicts(futures[i])
  {
    assert futures[..i + 1] == futures[..i] + [futures[i]];
  }

  /** The four conjuncts of the gate say that every future came back clean. */
  lemma CleanExactlyWhen(futures: seq<Future>)
    ensures AllClean(futures) <==>
      !AnyFailed(futures) && !AnyConflicted(futures) && |Completed(futures)| == |futures|
      && forall o <- Completed(futures) :: o.complete
  {
    CompletedOutcomes(futures);
    if AllClean(futures) {
      forall f | f in futures
        ensures !FutureFails(f) && !FutureConflicts(f)
      {
        assert f.Some? && Clean(f.value);
      }
    }
    if !AnyFailed(futures) && !AnyConflicted(futures) && forall o <- Completed(futures) :: o.complete {
      forall f | f in futures
        ensures f.Some? && Clean(f.value)
      {
        assert !FutureFails(f) && !FutureConflicts(f);
        assert f.value in Completed(futures);
      }
    }
  }

  /** From the join of the workers to the exit code. */
  method FinishRun(
    store: Store, futures: seq<Future>, stamps: map<(string, string), Stamp>, fold: Fold, raises: nat -> bool)
    returns (exitCode: int, progress: Progress)
    requires futures != [] && forall f <- futures :: f.Some? ==> f.value.name != ""
    modifies store
    ensures !AllClean(futures) ==> store.View() == old(store.View())
    ensures !AllClean(futures) ==>
      (exitCode == 1 <==> None in futures || exists o: RepoOutcome :: Some(o) in futures && BranchWith(o, Failed))
    ensures AllClean(futures) <==>
      forall f <- futures :: f.Some? && f.value.complete && !BranchWith(f.value, Failed) && !BranchWith(f.value, Conflicted)
    ensures AllClean(futures) && exitCode == 0 ==>
      var outcomes := Completed(futures);
      store.View() == Purged(RetireAll(old(store.View()), stamps, fold, outcomes), Names(outcomes))
    ensures exitCode == 0 || exitCode == 1
    ensures AllClean(futures) && exitCode == 0 ==>
      2 * |old(store.repos).Keys * Names(Completed(futures))| >= |old(store.repos)|
    ensures AllClean(futures) && (forall i | 0 <= i <= |futures| :: !raises(i)) ==>
      (exitCode == 0 <==> 2 * |old(store.repos).Keys - Names(Completed(futures))| <= |old(store.repos)|)
    ensures AllClean(futures) && old(store.repos).Keys <= Names(Completed(futures)) ==> !progress.purgeBlocked
    ensures AllClean(futures) && 2 * |old(store.repos).Keys - Names(Completed(futures))| > |old(store.repos)| ==>
      exitCode == 1
    ensures exitCode == 1 ==> store.repos == old(store.repos)
  {
    hide RetireAll, Purged, AllClean, AnyFailed, Completed, Names, PurgeTooBig;
    var outcomes, failures, reconcile := Drain(futures);
    CompletedOutcomes(futures);
    FailedAndClean(futures);
    progress := NO_PROGRESS;
    var failed := false;
    if reconcile {
      CleanIsSome(futures);
      CleanExactlyWhen(futures);
      RetireAllKeepsRepos(store.View(), stamps, fold, outcomes);
      progress, failed := Reconcile(store, outcomes, stamps, fold, raises);
    }
    exitCode := if failures > 0 || failed || progress.purgeBlocked then 1 else 0;
  }

  lemma CleanIsSome(futures: seq<Future>)
    requires AllClean(futures) && futures != []
    ensures futures[0] in futures && futures[0].Some?
  {
  }

  lemma {:induction false} CompletedOutcomes(futures: seq<Future>)
    ensures forall o <- Completed(futures) :: Some(o) in futures
    ensures forall f <- futures :: f.Some? ==> f.value in Completed(futures)
    ensures |Completed(futures)| <= |futures|
    ensures (exists f <- futures :: f.Some?) ==> Completed(futures) != []
    ensures (forall f <- futures :: f.Some?) ==> |Completed(futures)| == |futures|
    decreases |futures|
  {
    if futures != [] {
      var n := |futures| - 1;
      assert futures == futures[..n] + [futures[n]];
      CompletedOutcomes(futures[..n]);
    }
  }

  lemma {:induction false} RetireAllKeepsRepos(
    c: Corpus, stamps: map<(string, string), Stamp>, fold: Fold, outcomes: seq<RepoOutcome>)
    ensures RetireAll(c, stamps, fold, outcomes).repos == c.repos
    decreases |outcomes|
  {
    if outcomes != [] {
      RetireAllKeepsRepos(c, stamps, fold, outcomes[..|outcomes| - 1]);
    }
  }

  // ------------------------------------------------------------------ what a run guarantees

  /** What resolution and the skip seam provide about the repos of a run. */
  ghost predicate WellResolved(
    c: Corpus, outcomes: seq<RepoOutcome>, fold: Fold, names: set<string>)
  {
    && FoldsApart(fold, names) && DistinctNames(outcomes) && Names(outcomes) <= names
    && (forall o <- outcomes :: o.outcomes != [])
    && (forall rb <- c.registry.Keys :: rb.1 != "")
    && (forall o <- outcomes :: forall b <- o.outcomes ::
          b.status == Skipped ==> (fold(o.name), b.branch) in ReadStamps(c, fold, names))
  }

  lemma DoneIsCommitted(digest: Digest, events: seq<BranchEvent>, corpora: seq<Corpus>, e: BranchEvent)
    requires IsFanOut(digest, events, corpora) && e in events && e.status == Done
    ensures e.run.Some?
  {
    var i :| 0 <= i < |events| && events[i] == e;
    assert EventApplies(digest, e, corpora[i], corpora[i + 1]);
  }

  /** After the fan-out of a clean run, every resolved branch is registered. */
  lemma ResolvedAreRegistered(
    digest: Digest, events: seq<BranchEvent>, corpora: seq<Corpus>, outcomes: seq<RepoOutcome>,
    fold: Fold, names: set<string>, o: RepoOutcome, b: string)
    requires IsFanOut(digest, events, corpora) && Reports(outcomes, events)
    requires WellResolved(corpora[0], outcomes, fold, names)
    requires o in outcomes && Clean(o) && b in Resolved(o)
    ensures (o.name, b) in corpora[|events|].registry
  {
    hide EventApplies, Structured, ReadStamps;
    FanOutRegistry(digest, events, corpora, |events|);
    assert events[..|events|] == events;
    var i :| 0 <= i < |o.outcomes| && o.outcomes[i].branch == b;
    var bo := o.outcomes[i];
    assert bo in o.outcomes && HasEvent(events, o.name, bo);
    var e :| e in events && e.repo == o.name && e.branch == bo.branch && e.status == bo.status;
    if bo.status == Skipped {
      assert o.name in Names(outcomes);
      var stamps := ReadStamps(corpora[0], fold, names);
      assert (fold(o.name), b) in stamps;
      assert b in Persisted(stamps, fold, o.name);
      PersistedIsRegistered(corpora[0], fold, names, o.name, b);
    } else {
      DoneIsCommitted(digest, events, corpora, e);
      assert IndexedIn(events, o.name, b);
    }
  }

  /**
   A clean run whose purge is not withheld leaves exactly the desired state:
   stored repos are the desired ones, each repo's registry is its resolved
   branches, and every row is carried by some of them and by no other branch.
   */
  lemma CleanRunReachesDesiredState(
    digest: Digest, events: seq<BranchEvent>, corpora: seq<Corpus>, outcomes: seq<RepoOutcome>,
    fold: Fold, names: set<string>, final: Corpus)
    requires IsFanOut(digest, events, corpora) && Structured(corpora[0]) && Reports(outcomes, events)
    requires WellResolved(corpora[0], outcomes, fold, names)
    requires forall o <- outcomes :: Clean(o)
    requires final == Purged(
      RetireAll(corpora[|events|], ReadStamps(corpora[0], fold, names), fold, outcomes), Names(outcomes))
    requires forall e <- events :: e.branch != ""
    ensures final.repos.Keys == Names(outcomes)
    ensures forall o <- outcomes :: forall b :: (o.name, b) in final.registry <==> b in Resolved(o)
    ensures forall k <- final.files.Keys :: CarriedByResolved(outcomes, final, k)
  {
    var joined := corpora[|events|];
    var stamps := ReadStamps(corpora[0], fold, names);
    var retired := RetireAll(joined, stamps, fold, outcomes);
    assert Structured(retired) by {
      FanOutRegistry(digest, events, corpora, |events|);
      RetireAllRegistry(joined, stamps, fold, outcomes);
    }
    forall o, b | o in outcomes
      ensures (o.name, b) in retired.registry <==> b in Resolved(o)
    {
      RegistryOfRepo(digest, events, corpora, outcomes, fold, names, o, b);
    }
    PurgeLeavesResolved(retired, outcomes);
  }

  predicate CarriedByResolved(outcomes: seq<RepoOutcome>, c: Corpus, k: FileKey)
    requires k in c.files
  {
    c.files[k].branches != {} && exists o <- outcomes :: o.name == k.repo && c.files[k].branches <= Resolved(o)
  }

  lemma PurgeLeavesResolved(retired: Corpus, outcomes: seq<RepoOutcome>)
    requires Structured(retired) && forall o <- outcomes :: o.outcomes != []
    requires forall o <- outcomes :: forall b :: (o.name, b) in retired.registry <==> b in Resolved(o)
    ensures var final := Purged(retired, Names(outcomes));
      && final.repos.Keys == Names(outcomes)
      && (forall o <- outcomes :: forall b :: (o.name, b) in final.registry <==> b in Resolved(o))
      && forall k <- final.files.Keys :: CarriedByResolved(outcomes, final, k)
  {
    var final := Purged(retired, Names(outcomes));
    forall o | o in outcomes
      ensures o.name in final.repos
    {
      assert o.name in Names(outcomes);
      assert o.outcomes[0].branch in Resolved(o);
      assert (o.name, o.outcomes[0].branch) in retired.registry.Keys;
    }
    PurgingShrinks(retired, Names(outcomes));
    forall k | k in final.files
      ensures CarriedByResolved(outcomes, final, k)
    {
      assert ShrunkRow(retired, final, k);
      var i :| 0 <= i < |outcomes| && outcomes[i].name == k.repo;
      assert outcomes[i] in outcomes && final.files[k].branches <= Resolved(outcomes[i]);
    }
  }

  lemma RegistryOfRepo(
    digest: Digest, events: seq<BranchEvent>, corpora: seq<Corpus>, outcomes: seq<RepoOutcome>,
    fold: Fold, names: set<string>, o: RepoOutcome, b: string)
    requires IsFanOut(digest, events, corpora) && Structured(corpora[0]) && Reports(outcomes, events)
    requires WellResolved(corpora[0], outcomes, fold, names)
    requires o in outcomes && Clean(o)
    requires forall e <- events :: e.branch != ""
    ensures (o.name, b) in RetireAll(corpora[|events|], ReadStamps(corpora[0], fold, names), fold, outcomes).registry
      <==> b in Resolved(o)
  {
    var joined := corpora[|events|];
    var stamps := ReadStamps(corpora[0], fold, names);
    FanOutRegistry(digest, events, corpora, |events|);
    assert events[..|events|] == events;
    RetireAllRegistry(joined, stamps, fold, outcomes);
    assert o.name in Names(outcomes);
    PersistedIsRegistered(corpora[0], fold, names, o.name, b);
    if b in Resolved(o) {
      ResolvedAreRegistered(digest, events, corpora, outcomes, fold, names, o, b);
    } else if (o.name, b) in joined.registry {
      if IndexedIn(events, o.name, b) {
        EventsAreResolved(outcomes, events, o, b);
      }
      assert (o.name, b) in corpora[0].registry.Keys;
      assert b in RetiredBranches(stamps, fold, o) - {""};
    }
  }

  /**
   However the workers interleave, the fan-out takes a branch off rows, or its
   registry row away, only where it indexed that branch itself. `FinishRun` leaves
   the store there unless every repo came back clean and whole.
   */
  lemma FanOutOnlySweepsWhatItIndexed(
    digest: Digest, events: seq<BranchEvent>, corpora: seq<Corpus>, repo: string, b: string)
    requires IsFanOut(digest, events, corpora) && !IndexedIn(events, repo, b)
    ensures RowsOf(corpora[|events|], repo, b) == RowsOf(corpora[0], repo, b)
    ensures (repo, b) in corpora[|events|].registry <==> (repo, b) in corpora[0].registry
  {
    FanOutKeepsOtherBranches(digest, events, corpora, repo, b, |events|);
    FanOutRegistry(digest, events, corpora, |events|);
    assert events[..|events|] == events;
  }
}
