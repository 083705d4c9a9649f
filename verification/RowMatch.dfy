/** What a search means on one file row: the compiled predicate read over the row's columns. */
module RowMatch {
  import opened Wrappers
  import opened QueryAst
  import opened QueryPaths
  import opened Normalize
  import opened Compiler
  import PythonText
  import Scanner

  // ------------------------------------------------------------------ the columns

  /**
   What the predicate can read of a row and its repo: NULL is None, and `heads` are
   the last indexed commits of those of its branches that have one.
   */
  datatype Row = Row(
    content: Option<string>,
    repo: string,
    path: string,
    lang: Option<string>,
    symbols: set<string>,
    branches: set<string>,
    defaultBranch: Option<string>,
    heads: map<string, string>)

  /** The database's own: `~` and `~*` on a pattern and a text, and the case folding of `ILIKE`. */
  datatype Engine = Engine(regex: (string, string) -> bool, anyCase: (string, string) -> bool, fold: char -> char)

  predicate IsWild(c: char) {
    c == '\\' || c == '%' || c == '_'
  }

  /** Folding changes no wildcard and makes none. */
  ghost predicate KeepsWildcards(e: Engine) {
    forall c: char :: (IsWild(c) ==> e.fold(c) == c) && (IsWild(e.fold(c)) ==> IsWild(c))
  }

  function Folded(e: Engine, s: string): (r: string)
    ensures |r| == |s| && forall i | 0 <= i < |s| :: r[i] == e.fold(s[i])
  {
    seq(|s|, i requires 0 <= i < |s| => e.fold(s[i]))
  }

  function TruthOf(b: bool): Truth {
    if b then True else False
  }

  predicate Matches(e: Engine, pattern: string, text: string, caseSensitive: bool) {
    if caseSensitive then e.regex(pattern, text) else e.anyCase(pattern, text)
  }

  predicate OnDefault(row: Row) {
    (if row.defaultBranch.Some? then row.defaultBranch.value else "HEAD") in row.branches
  }

  predicate AtHeadOf(row: Row, prefix: string) {
    exists b <- row.branches :: b in row.heads && Scanner.Lowered(prefix) <= Scanner.Lowered(row.heads[b])
  }

  // ------------------------------------------------------------------ atoms of the predicate

  /** The value of an SQL atom on a row; a NULL column gives Unknown. */
  function Holds(e: Engine, row: Row, p: Predicate): Truth {
    match p
    case ContentLike(pattern, cs) =>
      if row.content.None? then Unknown
      else if cs then TruthOf(Like(pattern, row.content.value))
      else TruthOf(Like(Folded(e, pattern), Folded(e, row.content.value)))
    case ContentRegex(pattern, cs) =>
      if row.content.None? then Unknown else TruthOf(Matches(e, pattern, row.content.value, cs))
    case RepoRegex(pattern) => TruthOf(e.anyCase(pattern, row.repo))
    case PathRegex(pattern, cs) => TruthOf(Matches(e, pattern, row.path, cs))
    case LangEquals(lang) => if row.lang.None? then Unknown else TruthOf(row.lang.value == lang)
    case HasSymbol(name, cs) => TruthOf(exists s <- row.symbols :: Matches(e, name, s, cs))
    case OnBranch(b) => TruthOf(b in row.branches)
    case AtCommit(prefix) => TruthOf(AtHeadOf(row, prefix))
    case OnDefaultBranch => TruthOf(OnDefault(row))
    case _ => Unknown  // no atom
  }

  // ------------------------------------------------------------------ terms of the query

  /** Does the text contain the value, letter for letter or whatever the case? */
  predicate Shows(e: Engine, text: string, value: string, caseSensitive: bool) {
    if caseSensitive then Contains(text, value) else Contains(Folded(e, text), Folded(e, value))
  }

  /**
   What each term of the query language promises of a row: text and regex terms read
   the content under their own case flag, `repo:` the repo's name in any case, `file:`
   and `sym:` the path and the symbols under the query's flag, and `lang:` the language,
   trimmed and in lower case.
   */
  function Means(e: Engine, row: Row, caseSensitive: bool, term: Node): Truth {
    match term
    case Substring(value, cs) =>
      if row.content.None? then Unknown else TruthOf(Shows(e, row.content.value, value, cs))
    case Regex(pattern, cs) =>
      if row.content.None? then Unknown
      else TruthOf(if cs then e.regex(pattern, row.content.value) else e.anyCase(pattern, row.content.value))
    case RepoFilter(pattern) => TruthOf(e.anyCase(pattern, row.repo))
    case PathFilter(pattern) =>
      TruthOf(if caseSensitive then e.regex(pattern, row.path) else e.anyCase(pattern, row.path))
    case LangFilter(lang) =>
      if row.lang.None? then Unknown else TruthOf(row.lang.value == Scanner.Lowered(PythonText.Strip(lang)))
    case SymbolFilter(name) =>
      TruthOf(exists s <- row.symbols :: if caseSensitive then e.regex(name, s) else e.anyCase(name, s))
    case BranchFilter(b) => TruthOf(b in row.branches)
    case CommitFilter(prefix) => TruthOf(AtHeadOf(row, prefix))
    case _ => Unknown  // no term
  }

  lemma FoldedConcat(e: Engine, a: string, b: string)
    ensures Folded(e, a + b) == Folded(e, a) + Folded(e, b)
  {
  }

  lemma {:induction false} FoldedEscape(e: Engine, value: string)
    requires KeepsWildcards(e)
    ensures Folded(e, LikeEscape(value)) == LikeEscape(Folded(e, value))
    decreases |value|
  {
    hide LikeEscape, KeepsWildcards;
    if value == "" {
      NothingEscaped();
    } else {
      var folded := Folded(e, value);
      LikeEscapeCons(value);
      LikeEscapeCons(folded);
      FoldedEscape(e, value[1..]);
      assert Folded(e, value[1..]) == folded[1..];
      FoldedConcat(e, EscapedChar(value[0]), LikeEscape(value[1..]));
      FoldedChar(e, value[0]);
    }
  }

  lemma NothingEscaped()
    ensures LikeEscape("") == ""
  {
  }

  lemma FoldedChar(e: Engine, c: char)
    requires KeepsWildcards(e)
    ensures Folded(e, EscapedChar(c)) == EscapedChar(e.fold(c))
  {
    assert IsWild('\\') && e.fold('\\') == '\\';
  }

  /** A text term's pattern matches the texts that show the value, under either case flag. */
  lemma PatternShows(e: Engine, value: string, cs: bool, text: string)
    requires KeepsWildcards(e)
    ensures var pattern := "%" + LikeEscape(value) + "%";
      Shows(e, text, value, cs) <==>
        if cs then Like(pattern, text) else Like(Folded(e, pattern), Folded(e, text))
  {
    hide Like, LikeEscape, Contains;
    var pattern := "%" + LikeEscape(value) + "%";
    LikeIsContains(value, text);
    LikeIsContains(Folded(e, value), Folded(e, text));
    FoldedEscape(e, value);
    FoldedConcat(e, "%" + LikeEscape(value), "%");
    FoldedConcat(e, "%", LikeEscape(value));
    assert IsWild('%') && e.fold('%') == '%';
    assert Folded(e, "%") == "%";
  }

  /** Each term is lowered to the atom that says what the term means. */
  lemma LowerMeans(e: Engine, row: Row, caseSensitive: bool, term: Node)
    requires KeepsWildcards(e) && IsLeaf(term)
    ensures Holds(e, row, Lower(term, caseSensitive)) == Means(e, row, caseSensitive, term)
  {
    hide Like, LikeEscape, Shows, KeepsWildcards;
    match term
    case Substring(value, cs) =>
      if row.content.Some? { PatternShows(e, value, cs, row.content.value); }
    case _ =>
  }

  lemma {:induction false} ValueOfTerms(n: Node, leaf: Node -> Truth, other: Node -> Truth)
    requires forall l: Node :: IsLeaf(l) ==> leaf(l) == other(l)
    ensures Value(n, leaf) == Value(n, other)
    decreases n, 1
  {
    match n
    case Not(child) => ValueOfTerms(child, leaf, other);
    case And(children) => ValueOfAllTerms(children, leaf, other, false);
    case Or(children) => ValueOfAllTerms(children, leaf, other, true);
    case _ =>
  }

  lemma {:induction false} ValueOfAllTerms(ns: seq<Node>, leaf: Node -> Truth, other: Node -> Truth, isOr: bool)
    requires forall l: Node :: IsLeaf(l) ==> leaf(l) == other(l)
    ensures ValueAll(ns, leaf, isOr) == ValueAll(ns, other, isOr)
    decreases ns, 0
  {
    if ns != [] {
      ValueOfTerms(ns[0], leaf, other);
      ValueOfAllTerms(ns[1..], leaf, other, isOr);
    }
  }

  // ------------------------------------------------------------------ the default branch

  /** A branch or commit filter stands at the end of the path. */
  predicate ScopeAt(n: Node, path: seq<nat>) {
    Below(n, path).Some? && (Below(n, path).value.BranchFilter? || Below(n, path).value.CommitFilter?)
  }

  /** Some scope stands under an even number of negations (`even`), or under an odd one. */
  ghost predicate HasScope(n: Node, even: bool) {
    exists path: seq<nat> :: ScopeAt(n, path) && (Negations(n, path) % 2 == 0) == even
  }

  lemma HasScopeStep(n: Node, even: bool)
    ensures n.Not? ==> (HasScope(n, even) <==> HasScope(n.child, !even))
    ensures n.And? || n.Or? ==> (HasScope(n, even) <==> exists c <- ChildrenOf(n) :: HasScope(c, even))
    ensures IsLeaf(n) ==> (HasScope(n, even) <==> (n.BranchFilter? || n.CommitFilter?) && even)
  {
    var below := if n.Not? then !even else even;
    if HasScope(n, even) {
      var path: seq<nat> :| ScopeAt(n, path) && (Negations(n, path) % 2 == 0) == even;
      if path != [] {
        var c := ChildrenOf(n)[path[0]];
        assert ScopeAt(c, path[1..]);
        assert c in ChildrenOf(n) && HasScope(c, below);
      }
    }
    if (n.BranchFilter? || n.CommitFilter?) && even {
      assert ScopeAt(n, []) && Negations(n, []) == 0;
    }
    if i :| 0 <= i < |ChildrenOf(n)| && HasScope(ChildrenOf(n)[i], below) {
      var c := ChildrenOf(n)[i];
      var path: seq<nat> :| ScopeAt(c, path) && (Negations(c, path) % 2 == 0) == below;
      BelowChild(n, i, path);
      assert ScopeAt(n, [i] + path);
    }
    assert n.Not? ==> ChildrenOf(n)[0] == n.child;
  }

  /** A query opts out of the default branch exactly when some scope stands under an even number of negations. */
  lemma {:induction false} OptsOutExactlyWhen(n: Node, affirmative: bool)
    ensures HasBranchFilter(n, affirmative) <==> HasScope(n, affirmative)
    decreases n
  {
    HasScopeStep(n, affirmative);
    hide HasScope;
    if n.Not? {
      OptsOutExactlyWhen(n.child, !affirmative);
    } else {
      forall c | c in ChildrenOf(n)
        ensures HasBranchFilter(c, affirmative) <==> HasScope(c, affirmative)
      {
        OptsOutExactlyWhen(c, affirmative);
      }
    }
  }

  // ------------------------------------------------------------------ the search on a row

  /** The value of a query on a row, term by term. */
  function QueryValue(e: Engine, row: Row, caseSensitive: bool, n: Node): Truth {
    Value(n, term => Means(e, row, caseSensitive, term))
  }

  lemma LoweredValue(e: Engine, row: Row, caseSensitive: bool, n: Node)
    requires KeepsWildcards(e)
    ensures Eval(Lower(n, caseSensitive), p => Holds(e, row, p)) == QueryValue(e, row, caseSensitive, n)
  {
    var atom: Predicate -> Truth := p => Holds(e, row, p);
    LowerKeepsValue(n, caseSensitive, atom);
    forall l: Node | IsLeaf(l)
      ensures atom(Lower(l, caseSensitive)) == Means(e, row, caseSensitive, l)
    {
      LowerMeans(e, row, caseSensitive, l);
    }
    hide Means, Holds, Lower, Eval;
    ValueOfTerms(n, leaf => atom(Lower(leaf, caseSensitive)), term => Means(e, row, caseSensitive, term));
  }

  lemma HeldToDefault(p: Predicate, atom: Predicate -> Truth)
    ensures Eval(AndP([p, OnDefaultBranch]), atom) == Both(Eval(p, atom), atom(OnDefaultBranch))
  {
    assert [p, OnDefaultBranch][1..] == [OnDefaultBranch] && [OnDefaultBranch][1..] == [];
    assert EvalAll([OnDefaultBranch], atom, false) == atom(OnDefaultBranch);
  }

  lemma CompiledIs(n: Node, flag: Option<bool>)
    ensures var p := Lower(n, if flag.Some? then flag.value else GlobalCase(n));
      CompileQuery(n, flag) == if HasBranchFilter(n, true) then p else AndP([p, OnDefaultBranch])
  {
    hide Lower, HasBranchFilter, GlobalCase;
  }

  lemma DefaultHolds(e: Engine, row: Row)
    ensures Holds(e, row, OnDefaultBranch) == TruthOf(OnDefault(row))
  {
    hide OnDefault;
  }

  /**
   The compiled search on a row: it has the value of the query, term by term, in
   SQL's three values; and unless some scope stands under an even number of
   negations, the row must also be on its repo's default branch.
   */
  lemma SearchMeans(e: Engine, row: Row, n: Node, flag: Option<bool>)
    requires KeepsWildcards(e)
    ensures var value := QueryValue(e, row, if flag.Some? then flag.value else GlobalCase(n), n);
      Eval(CompileQuery(n, flag), p => Holds(e, row, p)) ==
        if HasScope(n, true) then value else Both(value, TruthOf(OnDefault(row)))
  {
    hide *;
    var cs := if flag.Some? then flag.value else GlobalCase(n);
    var atom: Predicate -> Truth := p => Holds(e, row, p);
    CompiledIs(n, flag);
    LoweredValue(e, row, cs, n);
    OptsOutExactlyWhen(n, true);
    HeldToDefault(Lower(n, cs), atom);
    DefaultHolds(e, row);
  }
}
