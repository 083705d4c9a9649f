module Permalinks {
  // From a search hit back to its file (app/service.py): the branch a hit's
  // permalink names, and the lookup `get_file` does with it.

  import opened Wrappers
  import opened QueryAst
  import opened QueryPaths
  import opened Tables
  import opened CorpusHistory
  import opened Normalize
  import opened Compiler
  import opened RowMatch
  import Cursors
  import Scanner

  // ------------------------------------------------------------------ scopes of a query

  function CollectBranches(n: Node): set<string> {
    match n
    case BranchFilter(b) => {b}
    case And(children) => CollectBranchesAll(children)
    case Or(children) => CollectBranchesAll(children)
    case _ => {}
  }

  function CollectBranchesAll(ns: seq<Node>): set<string> {
    if ns == [] then {} else CollectBranches(ns[0]) + CollectBranchesAll(ns[1..])
  }

  function CollectCommits(n: Node): set<string> {
    match n
    case CommitFilter(prefix) => {prefix}
    case And(children) => CollectCommitsAll(children)
    case Or(children) => CollectCommitsAll(children)
    case _ => {}
  }

  function CollectCommitsAll(ns: seq<Node>): set<string> {
    if ns == [] then {} else CollectCommits(ns[0]) + CollectCommitsAll(ns[1..])
  }

  /** A branch is collected exactly when its filter stands under conjunctions and disjunctions only. */
  lemma {:induction false} CollectsBranchExactlyWhen(n: Node, b: string)
    ensures b in CollectBranches(n) <==> Affirms(n, BranchFilter(b))
    decreases n, 1
  {
    AffirmsStep(n, BranchFilter(b));
    hide Affirms;
    match n
    case And(children) => CollectsBranchOfAll(children, b);
    case Or(children) => CollectsBranchOfAll(children, b);
    case _ =>
  }

  lemma {:induction false} CollectsBranchOfAll(ns: seq<Node>, b: string)
    ensures b in CollectBranchesAll(ns) <==> exists c <- ns :: Affirms(c, BranchFilter(b))
    decreases ns, 0
  {
    hide Affirms;
    if ns != [] {
      CollectsBranchExactlyWhen(ns[0], b);
      CollectsBranchOfAll(ns[1..], b);
      assert ns == [ns[0]] + ns[1..];
    }
  }

  lemma {:induction false} CollectsCommitExactlyWhen(n: Node, prefix: string)
    ensures prefix in CollectCommits(n) <==> Affirms(n, CommitFilter(prefix))
    decreases n, 1
  {
    AffirmsStep(n, CommitFilter(prefix));
    hide Affirms;
    match n
    case And(children) => CollectsCommitOfAll(children, prefix);
    case Or(children) => CollectsCommitOfAll(children, prefix);
    case _ =>
  }

  lemma {:induction false} CollectsCommitOfAll(ns: seq<Node>, prefix: string)
    ensures prefix in CollectCommitsAll(ns) <==> exists c <- ns :: Affirms(c, CommitFilter(prefix))
    decreases ns, 0
  {
    hide Affirms;
    if ns != [] {
      CollectsCommitExactlyWhen(ns[0], prefix);
      CollectsCommitOfAll(ns[1..], prefix);
      assert ns == [ns[0]] + ns[1..];
    }
  }

  // ------------------------------------------------------------------ what a query matches

  predicate HeadMatches(stamp: Stamp, prefix: string) {
    stamp.commit.Some? && Scanner.Lowered(prefix) <= Scanner.Lowered(stamp.commit.value)
  }

  function DefaultBranch(c: Corpus, repo: string): string {
    if repo in c.repos && c.repos[repo].Some? then c.repos[repo].value else "HEAD"
  }

  /** Some branch of the row has a head the prefix names. */
  predicate AtHead(c: Corpus, k: FileKey, prefix: string)
    requires k in c.files
  {
    exists b <- c.files[k].branches :: (k.repo, b) in c.registry && HeadMatches(c.registry[(k.repo, b)], prefix)
  }

  /** What the search reads of a stored row. */
  function RowOf(c: Corpus, k: FileKey): Row
    requires k in c.files
  {
    var row := c.files[k];
    Row(Some(row.content), k.repo, k.path, row.lang, set s | s in row.extraction.symbols :: s.name, row.branches,
      if k.repo in c.repos then c.repos[k.repo] else None,
      map b | b in row.branches && (k.repo, b) in c.registry && c.registry[(k.repo, b)].commit.Some? ::
        c.registry[(k.repo, b)].commit.value)
  }

  function AtomOn(c: Corpus, k: FileKey, e: Engine): Predicate -> Truth
    requires k in c.files
  {
    var row := RowOf(c, k);
    (p: Predicate) => Holds(e, row, p)
  }

  /** The scope atoms read the registry. */
  lemma ScopeAtoms(c: Corpus, k: FileKey, e: Engine)
    requires k in c.files
    ensures var atom := AtomOn(c, k, e);
      && (forall b :: atom(OnBranch(b)) == True <==> b in c.files[k].branches)
      && (forall prefix :: atom(AtCommit(prefix)) == True <==> AtHead(c, k, prefix))
      && (atom(OnDefaultBranch) == True <==> DefaultBranch(c, k.repo) in c.files[k].branches)
  {
    var row := RowOf(c, k);
    forall prefix
      ensures AtHeadOf(row, prefix) <==> AtHead(c, k, prefix)
    {
      if b :| b in row.branches && b in row.heads && Scanner.Lowered(prefix) <= Scanner.Lowered(row.heads[b]) {
        assert HeadMatches(c.registry[(k.repo, b)], prefix);
      }
      if b :| b in c.files[k].branches && (k.repo, b) in c.registry && HeadMatches(c.registry[(k.repo, b)], prefix) {
        assert b in row.heads;
      }
    }
  }

  /** Row `k` is a candidate of the compiled query. */
  predicate Hit(c: Corpus, n: Node, flag: Option<bool>, k: FileKey, e: Engine) {
    k in c.files && Eval(CompileQuery(n, flag), AtomOn(c, k, e)) == True
  }

  // ------------------------------------------------------------------ the permalink branch

  predicate IsLeast(s: set<string>, m: string) {
    m in s && forall x <- s :: x == m || Cursors.TextLess(m, x)
  }

  lemma {:induction false} LeastExists(s: set<string>)
    requires s != {}
    ensures exists m :: IsLeast(s, m)
    decreases |s|
  {
    var x :| x in s;
    if s != {x} {
      var rest := s - {x};
      LeastExists(rest);
      var m :| IsLeast(rest, m);
      Cursors.TextTotal(x, m);
      if Cursors.TextLess(x, m) {
        forall y | y in s && y != x && y != m
          ensures Cursors.TextLess(x, y)
        {
          Cursors.TextTransitive(x, m, y);
        }
        assert IsLeast(s, x);
      } else {
        assert IsLeast(s, m);
      }
    } else {
      assert IsLeast(s, x);
    }
  }

  lemma LeastIsUnique(s: set<string>, a: string, b: string)
    requires IsLeast(s, a) && IsLeast(s, b)
    ensures a == b
  {
    Cursors.TextTotal(a, b);
  }

  /** `sorted(s)[0]`. */
  function Least(s: set<string>): (m: string)
    requires s != {}
    ensures IsLeast(s, m)
  {
    LeastExists(s);
    assert forall a, b | IsLeast(s, a) && IsLeast(s, b) :: a == b by {
      forall a, b | IsLeast(s, a) && IsLeast(s, b) ensures a == b { LeastIsUnique(s, a, b); }
    }
    var m :| IsLeast(s, m);
    m
  }

  function SelectPermalinkBranch(filters: set<string>, branches: set<string>): (r: Option<string>)
    ensures r.None? <==> filters == {} || branches == {}
    ensures r.Some? ==> IsLeast(if filters * branches != {} then filters * branches else branches, r.value)
    ensures r.Some? ==> r.value in branches
  {
    if filters == {} then None
    else if filters * branches != {} then
      assert Least(filters * branches) in branches;
      Some(Least(filters * branches))
    else if branches != {} then Some(Least(branches)) else None
  }

  /** The (repo, branch) heads that some prefix resolves to. */
  function Resolved(c: Corpus, prefixes: set<string>): set<(string, string)> {
    set rb | rb in c.registry && exists p <- prefixes :: HeadMatches(c.registry[rb], p)
  }

  /** The row's branches that are resolved heads of its repo. */
  function HeadsOf(resolved: set<(string, string)>, repo: string, branches: set<string>): set<string> {
    set b | b in branches && (repo, b) in resolved
  }

  /** `resolved` is None for a query without an affirmative commit scope. */
  function ScopeBranch(filters: set<string>, resolved: Option<set<(string, string)>>, repo: string, branches: set<string>)
    : (r: Option<string>)
    ensures filters != {} ==> r == SelectPermalinkBranch(filters, branches)
    ensures filters == {} ==>
      var heads := if resolved.Some? then HeadsOf(resolved.value, repo, branches) else {};
      (r.Some? <==> heads != {}) && (r.Some? ==> IsLeast(heads, r.value))
    ensures r.Some? ==> r.value in branches
  {
    if filters != {} then SelectPermalinkBranch(filters, branches)
    else if resolved.Some? && resolved.value != {} then
      var applicable := HeadsOf(resolved.value, repo, branches);
      if applicable != {} then Some(Least(applicable)) else None
    else None
  }

  /** The permalink branch the envelope carries for row `k`. */
  function PermalinkOf(c: Corpus, n: Node, k: FileKey): Option<string>
    requires k in c.files
  {
    var prefixes := CollectCommits(n);
    ScopeBranch(CollectBranches(n), if prefixes != {} then Some(Resolved(c, prefixes)) else None,
      k.repo, c.files[k].branches)
  }

  // ------------------------------------------------------------------ get_file

  /** The rows `get_file` selects; more than one is an error there, none a miss. */
  function Lookup(c: Corpus, repo: string, path: string, branch: Option<string>): set<FileKey> {
    set k | k in c.files && k.repo == repo && k.repo in c.repos && k.path == path
      && (if branch.Some? then branch.value else DefaultBranch(c, repo)) in c.files[k].branches
  }

  /** At most one row of a sound corpus answers a lookup. */
  lemma LookupIsUnique(c: Corpus, repo: string, path: string, branch: Option<string>, k: FileKey, l: FileKey)
    requires OneVersionPerBranch(c) && k in Lookup(c, repo, path, branch) && l in Lookup(c, repo, path, branch)
    ensures k == l
  {
    var b := if branch.Some? then branch.value else DefaultBranch(c, repo);
    assert b in c.files[k].branches && b in c.files[l].branches;
  }

  /** Some branch filter stands under conjunctions and disjunctions only. */
  ghost predicate ScopesToABranch(n: Node) {
    exists b :: Affirms(n, BranchFilter(b))
  }

  /** Some commit filter that stands so names a head of the row. */
  ghost predicate ScopesToAHead(c: Corpus, n: Node, k: FileKey)
    requires k in c.files
  {
    exists prefix :: Affirms(n, CommitFilter(prefix)) && AtHead(c, k, prefix)
  }

  lemma ScopesAreTheCollected(c: Corpus, n: Node, k: FileKey)
    requires k in c.files
    ensures ScopesToABranch(n) <==> CollectBranches(n) != {}
    ensures ScopesToAHead(c, n, k) <==> exists p <- CollectCommits(n) :: AtHead(c, k, p)
  {
    hide Affirms, CollectBranches, CollectCommits, AtHead;
    forall b
      ensures b in CollectBranches(n) <==> Affirms(n, BranchFilter(b))
    {
      CollectsBranchExactlyWhen(n, b);
    }
    forall prefix
      ensures prefix in CollectCommits(n) <==> Affirms(n, CommitFilter(prefix))
    {
      CollectsCommitExactlyWhen(n, prefix);
    }
  }

  /** The permalink of a row names a branch exactly when its query scopes to a branch, or to a head of the row. */
  lemma PermalinkNamesABranchExactlyWhen(c: Corpus, n: Node, k: FileKey)
    requires k in c.files && c.files[k].branches != {}
    ensures PermalinkOf(c, n, k).Some? <==> ScopesToABranch(n) || ScopesToAHead(c, n, k)
  {
    hide CollectBranches, CollectCommits, Affirms;
    ScopesAreTheCollected(c, n, k);
    var prefixes, row := CollectCommits(n), c.files[k];
    if CollectBranches(n) == {} {
      if p :| p in prefixes && AtHead(c, k, p) {
        HeadIsResolved(c, k, p, prefixes);
      }
      if PermalinkOf(c, n, k).Some? {
        var b := PermalinkOf(c, n, k).value;
        assert b in HeadsOf(Resolved(c, prefixes), k.repo, row.branches);
        assert (k.repo, b) in Resolved(c, prefixes);
        var p :| p in prefixes && HeadMatches(c.registry[(k.repo, b)], p);
        assert AtHead(c, k, p);
      }
    }
  }

  /**
   Opening the permalink of row `k` finds that row, and no e, exactly when the
   query scopes to a branch, or to a commit that is a head of the row, or the row is
   on its repo's default branch.
   */
  lemma PermalinkFindsTheRow(c: Corpus, n: Node, k: FileKey)
    requires Structured(c) && OneVersionPerBranch(c) && k in c.files
    ensures Lookup(c, k.repo, k.path, PermalinkOf(c, n, k)) == {k} <==>
      ScopesToABranch(n) || ScopesToAHead(c, n, k) || DefaultBranch(c, k.repo) in c.files[k].branches
  {
    var branch := PermalinkOf(c, n, k);
    var rows := Lookup(c, k.repo, k.path, branch);
    assert Carried(c, k);
    PermalinkNamesABranchExactlyWhen(c, n, k);
    hide ScopesToABranch, ScopesToAHead, Structured;
    assert k.repo in c.repos;
    forall l | k in rows && l in rows
      ensures l == k
    {
      LookupIsUnique(c, k.repo, k.path, branch, k, l);
    }
    assert k in rows ==> rows == {k};
  }

  // ------------------------------------------------------------------ queries whose hits open

  predicate CommitAt(n: Node, path: seq<nat>) {
    Below(n, path).Some? && Below(n, path).value.CommitFilter?
  }

  /**
   No scope stands under two negations or more; and some branch filter stands under
   none, or every commit filter that does is the query itself or a conjunct of it.
   */
  ghost predicate ScopesArePlain(n: Node) {
    && (forall path: seq<nat> :: ScopeAt(n, path) ==> Negations(n, path) <= 1)
    && (ScopesToABranch(n) ||
        forall path: seq<nat> :: CommitAt(n, path) && Negations(n, path) == 0 ==> path == [] || (n.And? && |path| == 1))
  }

  lemma {:induction false} AllTrue(ps: seq<Predicate>, atom: Predicate -> Truth, i: nat)
    requires EvalAll(ps, atom, false) == True && i < |ps|
    ensures Eval(ps[i], atom) == True
    decreases |ps|
  {
    if i > 0 {
      AllTrue(ps[1..], atom, i - 1);
    }
  }

  lemma {:induction false} LowerAllAt(ns: seq<Node>, caseSensitive: bool, i: nat)
    requires i < |ns|
    ensures LowerAll(ns, caseSensitive)[i] == Lower(ns[i], caseSensitive)
    decreases |ns|
  {
    if i > 0 {
      LowerAllAt(ns[1..], caseSensitive, i - 1);
    }
  }

  /** A row that satisfies a query with a commit filter for a conjunct is at a head the filter names. */
  lemma ConjunctIsAtAHead(c: Corpus, n: Node, path: seq<nat>, cs: bool, k: FileKey, e: Engine)
    requires k in c.files && CommitAt(n, path) && (path == [] || (n.And? && |path| == 1))
    requires Eval(Lower(n, cs), AtomOn(c, k, e)) == True
    ensures AtHead(c, k, Below(n, path).value.commit)
  {
    var atom := AtomOn(c, k, e);
    if path != [] {
      var i := path[0];
      assert Below(n.children[i], []) == Some(n.children[i]) && path[1..] == [];
      LowerAllAt(n.children, cs, i);
      AllTrue(LowerAll(n.children, cs), atom, i);
    }
  }

  lemma HitSatisfies(c: Corpus, n: Node, flag: Option<bool>, k: FileKey, e: Engine)
    requires Hit(c, n, flag, k, e)
    ensures Eval(Lower(n, if flag.Some? then flag.value else GlobalCase(n)), AtomOn(c, k, e)) == True
    ensures HasBranchFilter(n, true) || DefaultBranch(c, k.repo) in c.files[k].branches
  {
    var p := Lower(n, if flag.Some? then flag.value else GlobalCase(n));
    if !HasBranchFilter(n, true) {
      AllTrue([p, OnDefaultBranch], AtomOn(c, k, e), 0);
      AllTrue([p, OnDefaultBranch], AtomOn(c, k, e), 1);
    }
  }

  /**
   Search hit to file: in every corpus a history reaches, for a query whose scopes stand
   under at most one negation and whose commit filters are conjuncts, if it names no
   branch, `get_file` at a hit's repo, path and permalink branch selects exactly the
   hit's own content version.
   */
  lemma HitRoundTrip(w: World, events: seq<Event>, states: seq<State>, n: Node, flag: Option<bool>, k: FileKey,
                     e: Engine)
    requires CollisionFree(w.digest) && IsHistory(w, events, states)
    requires Hit(states[|events|].corpus, n, flag, k, e)
    requires ScopesArePlain(n)
    ensures var c := states[|events|].corpus;
      Lookup(c, k.repo, k.path, PermalinkOf(c, n, k)) == {k}
  {
    var c := states[|events|].corpus;
    HistoriesStaySound(w, events, states, |events|);
    assert Carried(c, k);
    HitIsScoped(c, n, flag, k, e);
    hide Sound, Hit, PermalinkOf, Lookup, IsHistory, ScopesToABranch, ScopesToAHead;
    PermalinkFindsTheRow(c, n, k);
  }

  lemma HitIsScoped(c: Corpus, n: Node, flag: Option<bool>, k: FileKey, e: Engine)
    requires Hit(c, n, flag, k, e) && ScopesArePlain(n)
    ensures ScopesToABranch(n) || ScopesToAHead(c, n, k) || DefaultBranch(c, k.repo) in c.files[k].branches
  {
    HitSatisfies(c, n, flag, k, e);
    if HasBranchFilter(n, true) {
      ScopeIsAffirmed(n);
      hide *;
      if !ScopesToABranch(n) {
        var path := CommitConjunct(n);
        ConjunctIsAtAHead(c, n, path, if flag.Some? then flag.value else GlobalCase(n), k, e);
        AffirmedHead(c, n, path, k);
      }
    }
  }

  lemma AffirmedHead(c: Corpus, n: Node, path: seq<nat>, k: FileKey)
    requires k in c.files && CommitAt(n, path) && Negations(n, path) == 0 && AtHead(c, k, Below(n, path).value.commit)
    ensures ScopesToAHead(c, n, k)
  {
    hide AtHead, Below, Negations;
    assert Affirms(n, CommitFilter(Below(n, path).value.commit));
  }

  /** Some scope of a plain query that opts out of the default branch stands under no negation. */
  lemma ScopeIsAffirmed(n: Node)
    requires ScopesArePlain(n) && HasBranchFilter(n, true)
    ensures ScopesToABranch(n) || exists path: seq<nat> :: CommitAt(n, path) && Negations(n, path) == 0
  {
    hide HasBranchFilter, Below, Negations;
    OptsOutExactlyWhen(n, true);
    var path: seq<nat> :| ScopeAt(n, path) && (Negations(n, path) % 2 == 0) == true;
    assert Negations(n, path) == 0;
    if Below(n, path).value.BranchFilter? {
      assert Affirms(n, BranchFilter(Below(n, path).value.branch));
    } else {
      assert CommitAt(n, path);
    }
  }

  lemma CommitConjunct(n: Node) returns (path: seq<nat>)
    requires ScopesArePlain(n) && !ScopesToABranch(n)
    requires exists path: seq<nat> :: CommitAt(n, path) && Negations(n, path) == 0
    ensures CommitAt(n, path) && Negations(n, path) == 0 && (path == [] || (n.And? && |path| == 1))
  {
    hide CommitAt, Negations, ScopesToABranch;
    path :| CommitAt(n, path) && Negations(n, path) == 0;
  }

  /** Every conjunction of terms and negated terms is covered, whatever scopes it has: so is `foo branch:dev`. */
  lemma ConjunctionsArePlain(children: seq<Node>)
    requires forall c <- children :: IsLeaf(c) || (c.Not? && IsLeaf(c.child))
    ensures ScopesArePlain(And(children))
  {
    var n := And(children);
    forall path: seq<nat> | Below(n, path).Some?
      ensures Negations(n, path) <= 1 && (CommitAt(n, path) && Negations(n, path) == 0 ==> |path| == 1)
    {
      if path != [] {
        var c := children[path[0]];
        assert c in children && Below(c, path[1..]).Some?;
        ShallowPath(c, path[1..]);
      }
    }
  }

  lemma ShallowPath(c: Node, path: seq<nat>)
    requires (IsLeaf(c) || (c.Not? && IsLeaf(c.child))) && Below(c, path).Some?
    ensures Negations(c, path) <= 1 && (Negations(c, path) == 0 ==> path == [])
  {
    if path != [] {
      assert ChildrenOf(c) == [c.child] && Below(c.child, path[1..]).Some?;
      assert ChildrenOf(c.child) == [];
    }
  }

  lemma HeadIsResolved(c: Corpus, k: FileKey, prefix: string, prefixes: set<string>)
    requires k in c.files && AtHead(c, k, prefix) && prefix in prefixes
    ensures ScopeBranch({}, Some(Resolved(c, prefixes)), k.repo, c.files[k].branches).Some?
  {
    var b :| b in c.files[k].branches && (k.repo, b) in c.registry && HeadMatches(c.registry[(k.repo, b)], prefix);
    var resolved := Resolved(c, prefixes);
    assert (k.repo, b) in resolved;
    assert b in HeadsOf(resolved, k.repo, c.files[k].branches);
  }

  // ------------------------------------------------------------------ queries whose hits do not open

  /**
   Does a search list row `k` for its content? The row is a candidate, some content
   leaf under no negation highlights something in it, and a commit scope resolves to some head, without
   which the search is not run.
   */
  ghost predicate Lists(c: Corpus, n: Node, flag: Option<bool>, k: FileKey, e: Engine, shows: Node -> bool) {
    && Hit(c, n, flag, k, e)
    && (exists leaf: Node :: (leaf.Substring? || leaf.Regex?) && Affirms(n, leaf) && shows(leaf))
    && (CollectCommits(n) != {} ==> Resolved(c, CollectCommits(n)) != {})
  }

  /** The first operand, if it is a leaf, stands under no negation. */
  lemma FirstIsAffirmed(a: Node, b: Node)
    requires IsLeaf(a)
    ensures Affirms(And([a, b]), a) && Affirms(Or([a, b]), a)
  {
    AffirmsStep(a, a);
    AffirmsStep(And([a, b]), a);
    AffirmsStep(Or([a, b]), a);
    hide Affirms;
    assert a in ChildrenOf(And([a, b])) && a in ChildrenOf(Or([a, b]));
  }

  lemma ScopesOfTwo(a: Node, b: Node)
    ensures CollectBranchesAll([a, b]) == CollectBranches(a) + CollectBranches(b)
    ensures CollectCommitsAll([a, b]) == CollectCommits(a) + CollectCommits(b)
  {
    hide CollectBranches, CollectCommits;
    assert [a, b][1..] == [b] && [b][1..] == [];
    assert CollectBranchesAll([b]) == CollectBranches(b) + CollectBranchesAll([]);
    assert CollectCommitsAll([b]) == CollectCommits(b) + CollectCommitsAll([]);
  }

  lemma LoweredTwo(a: Node, b: Node, cs: bool)
    ensures LowerAll([a, b], cs) == [Lower(a, cs), Lower(b, cs)]
  {
    hide Lower;
    assert [a, b][1..] == [b] && [b][1..] == [];
    assert LowerAll([b], cs) == [Lower(b, cs)];
  }

  lemma EvalTwo(p: Predicate, q: Predicate, atom: Predicate -> Truth, isOr: bool)
    ensures EvalAll([p, q], atom, isOr) == Combine(Eval(p, atom), Eval(q, atom), isOr)
  {
    hide Eval;
    assert [p, q][1..] == [q] && [q][1..] == [];
    assert EvalAll([q], atom, isOr) == Combine(Eval(q, atom), Neutral(isOr), isOr);
  }

  /** A query of some text and an affirmative scope is not held to the default branch. */
  lemma TextAndScopeHits(
    c: Corpus, s: Node, scope: Node, k: FileKey, flag: Option<bool>, e: Engine, isOr: bool)
    requires k in c.files && s.Substring? && KeepsWildcards(e) && Shows(e, c.files[k].content, s.value, s.caseSensitive) && HasBranchFilter(scope, true)
    requires isOr || forall cs :: Eval(Lower(scope, cs), AtomOn(c, k, e)) == True
    ensures Hit(c, if isOr then Or([s, scope]) else And([s, scope]), flag, k, e)
  {
    hide Holds, AtomOn, Lower, LowerAll, HasBranchFilter, Eval, EvalAll, Shows, KeepsWildcards, CompileQuery, GlobalCase;
    var n, atom := if isOr then Or([s, scope]) else And([s, scope]), AtomOn(c, k, e);
    var cs := if flag.Some? then flag.value else GlobalCase(n);
    TextHolds(c, s, k, e, cs);
    LoweredPair(s, scope, cs, atom, isOr);
    PairIsScoped(s, scope, isOr);
    CompiledIs(n, flag);
  }

  lemma LoweredPair(a: Node, b: Node, cs: bool, atom: Predicate -> Truth, isOr: bool)
    ensures Eval(Lower(if isOr then Or([a, b]) else And([a, b]), cs), atom)
      == Combine(Eval(Lower(a, cs), atom), Eval(Lower(b, cs), atom), isOr)
  {
    LoweredTwo(a, b, cs);
    EvalTwo(Lower(a, cs), Lower(b, cs), atom, isOr);
    hide LowerAll, EvalAll, Combine;
  }

  lemma PairIsScoped(a: Node, scope: Node, isOr: bool)
    requires HasBranchFilter(scope, true)
    ensures HasBranchFilter(if isOr then Or([a, scope]) else And([a, scope]), true)
  {
    assert scope in [a, scope];
  }

  lemma TextHolds(c: Corpus, s: Node, k: FileKey, e: Engine, cs: bool)
    requires k in c.files && s.Substring? && KeepsWildcards(e) && Shows(e, c.files[k].content, s.value, s.caseSensitive)
    ensures Eval(Lower(s, cs), AtomOn(c, k, e)) == True
  {
    hide Shows, KeepsWildcards, Like;
    LowerMeans(e, RowOf(c, k), cs, s);
  }

  lemma UnscopedMisses(c: Corpus, n: Node, k: FileKey)
    requires Structured(c) && OneVersionPerBranch(c) && k in c.files
    requires CollectBranches(n) == {} && forall p <- CollectCommits(n) :: !AtHead(c, k, p)
    requires DefaultBranch(c, k.repo) !in c.files[k].branches
    ensures k !in Lookup(c, k.repo, k.path, PermalinkOf(c, n, k))
  {
    hide CollectBranches, CollectCommits, AtHead, Structured, ScopesToABranch, ScopesToAHead;
    ScopesAreTheCollected(c, n, k);
    PermalinkFindsTheRow(c, n, k);
    if k in Lookup(c, k.repo, k.path, PermalinkOf(c, n, k)) {
      LookupHasOnly(c, n, k);
    }
  }

  lemma LookupHasOnly(c: Corpus, n: Node, k: FileKey)
    requires OneVersionPerBranch(c) && k in c.files && k in Lookup(c, k.repo, k.path, PermalinkOf(c, n, k))
    ensures Lookup(c, k.repo, k.path, PermalinkOf(c, n, k)) == {k}
  {
    var rows := Lookup(c, k.repo, k.path, PermalinkOf(c, n, k));
    forall l | l in rows
      ensures l == k
    {
      LookupIsUnique(c, k.repo, k.path, PermalinkOf(c, n, k), k, l);
    }
  }

  /**
   A doubly negated scope opts out of the default branch without being collected: a
   search for text under it lists rows off the default branch, gives them no permalink
   branch, and opening them misses their row.
   */
  lemma DoublyNegatedScopeMisses(
    c: Corpus, s: Node, b: string, k: FileKey, flag: Option<bool>, e: Engine, shows: Node -> bool)
    requires Structured(c) && OneVersionPerBranch(c) && k in c.files
    requires s.Substring? && KeepsWildcards(e) && Shows(e, c.files[k].content, s.value, s.caseSensitive) && shows(s)
    requires b in c.files[k].branches && DefaultBranch(c, k.repo) !in c.files[k].branches
    ensures var n := And([s, Not(Not(BranchFilter(b)))]);
      Lists(c, n, flag, k, e, shows) && k !in Lookup(c, k.repo, k.path, PermalinkOf(c, n, k))
  {
    var scope := Not(Not(BranchFilter(b)));
    var n, atom := And([s, scope]), AtomOn(c, k, e);
    FirstIsAffirmed(s, scope);
    ScopesOfTwo(s, scope);
    assert CollectBranches(n) == {} && CollectCommits(n) == {};
    assert atom(OnBranch(b)) == True;
    NegatedTwice(b, true, atom);
    NegatedTwice(b, false, atom);
    hide AtomOn, Lower, Eval, Structured, OneVersionPerBranch, CollectBranches, CollectCommits, Affirms, HasBranchFilter;
    TextAndScopeHits(c, s, scope, k, flag, e, false);
    hide Hit;
    UnscopedMisses(c, n, k);
  }

  lemma NegatedTwice(b: string, cs: bool, atom: Predicate -> Truth)
    requires atom(OnBranch(b)) == True
    ensures Eval(Lower(Not(Not(BranchFilter(b))), cs), atom) == True && HasBranchFilter(Not(Not(BranchFilter(b))), true)
  {
    assert Eval(OnBranch(b), atom) == True;
    assert Eval(NotP(OnBranch(b)), atom) == False;
    assert Lower(Not(BranchFilter(b)), cs) == NotP(OnBranch(b));
    assert HasBranchFilter(Not(BranchFilter(b)), false);
  }

  /**
   A commit under OR, resolved to some head: a row that the other arm lists, off the
   default branch and off every head the commit names, misses its row.
   */
  lemma CommitUnderOrMisses(
    c: Corpus, s: Node, prefix: string, k: FileKey, flag: Option<bool>, e: Engine, shows: Node -> bool)
    requires Structured(c) && OneVersionPerBranch(c) && k in c.files
    requires s.Substring? && KeepsWildcards(e) && Shows(e, c.files[k].content, s.value, s.caseSensitive) && shows(s)
    requires Resolved(c, {prefix}) != {} && !AtHead(c, k, prefix)
    requires DefaultBranch(c, k.repo) !in c.files[k].branches
    ensures var n := Or([s, CommitFilter(prefix)]);
      Lists(c, n, flag, k, e, shows) && k !in Lookup(c, k.repo, k.path, PermalinkOf(c, n, k))
  {
    var scope := CommitFilter(prefix);
    var n := Or([s, scope]);
    FirstIsAffirmed(s, scope);
    ScopesOfTwo(s, scope);
    assert CollectBranches(n) == {} && CollectCommits(n) == {prefix};
    assert HasBranchFilter(scope, true);
    hide Lower, Structured, OneVersionPerBranch, CollectBranches, CollectCommits, Affirms, HasBranchFilter, AtHead, Resolved;
    TextAndScopeHits(c, s, scope, k, flag, e, true);
    hide Hit;
    UnscopedMisses(c, n, k);
  }
}
