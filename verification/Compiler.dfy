/** Query trees lowered to a predicate over file rows (app/query/compiler.py). */
module Compiler {
  import opened Wrappers
  import opened QueryAst
  import opened Normalize
  import opened QueryPrint
  import opened QueryRoundTrip
  import PythonText
  import Scanner

  /** The SQL predicate; regular expressions are opaque patterns. */
  datatype Predicate =
    | ContentLike(pattern: string, caseSensitive: bool)
    | ContentRegex(pattern: string, caseSensitive: bool)
    | RepoRegex(pattern: string)
    | PathRegex(pattern: string, caseSensitive: bool)
    | LangEquals(lang: string)
    | HasSymbol(name: string, caseSensitive: bool)
    | OnBranch(branch: string)
    | AtCommit(prefix: string)
    | OnDefaultBranch
    | NotP(operand: Predicate)
    | AndP(operands: seq<Predicate>)
    | OrP(operands: seq<Predicate>)

  // ------------------------------------------------------------------ LIKE

  function Replace(s: string, c: char, with: string): string
    decreases |s|
  {
    if s == "" then "" else (if s[0] == c then with else [s[0]]) + Replace(s[1..], c, with)
  }

  function LikeEscape(value: string): string {
    Replace(Replace(Replace(value, '\\', "\\\\"), '%', "\\%"), '_', "\\_")
  }

  /** `text LIKE pattern ESCAPE '\'`. */
  predicate Like(pattern: string, text: string)
    decreases |pattern| + |text|
  {
    if pattern == "" then text == ""
    else if pattern[0] == '%' then Like(pattern[1..], text) || (text != "" && Like(pattern, text[1..]))
    else if pattern[0] == '\\' && |pattern| > 1 then text != "" && text[0] == pattern[1] && Like(pattern[2..], text[1..])
    else text != "" && (pattern[0] == '_' || text[0] == pattern[0]) && Like(pattern[1..], text[1..])
  }

  function EscapedChar(c: char): string {
    if c == '\\' || c == '%' || c == '_' then ['\\', c] else [c]
  }

  lemma {:induction false} ReplaceConcat(a: string, b: string, c: char, with: string)
    ensures Replace(a + b, c, with) == Replace(a, c, with) + Replace(b, c, with)
    decreases |a|
  {
    if a == "" {
      assert a + b == b;
    } else {
      ReplaceConcat(a[1..], b, c, with);
      assert (a + b)[1..] == a[1..] + b;
    }
  }

  lemma ReplaceOne(x: char, c: char, with: string)
    ensures Replace([x], c, with) == if x == c then with else [x]
  {
    assert [x][1..] == "";
  }

  /** The three replacements, backslash first, escape each character on its own. */
  lemma LikeEscapeCons(value: string)
    requires value != ""
    ensures LikeEscape(value) == EscapedChar(value[0]) + LikeEscape(value[1..])
  {
    var x := value[0];
    assert value == [x] + value[1..];
    ReplaceConcat([x], value[1..], '\\', "\\\\");
    ReplaceOne(x, '\\', "\\\\");
    var first := if x == '\\' then "\\\\" else [x];
    var rest := Replace(value[1..], '\\', "\\\\");
    ReplaceConcat(first, rest, '%', "\\%");
    EscapesAlone(x, first);
    ReplaceConcat(Replace(first, '%', "\\%"), Replace(rest, '%', "\\%"), '_', "\\_");
  }

  lemma EscapesAlone(x: char, first: string)
    requires first == if x == '\\' then "\\\\" else [x]
    ensures Replace(Replace(first, '%', "\\%"), '_', "\\_") == EscapedChar(x)
  {
    ReplaceOne(x, '%', "\\%");
    ReplaceOne(x, '_', "\\_");
    if x == '\\' {
      assert "\\\\" == "\\" + "\\";
      ReplaceConcat("\\", "\\", '%', "\\%");
      ReplaceConcat("\\", "\\", '_', "\\_");
    } else if x == '%' {
      assert "\\%" == "\\" + "%";
      ReplaceConcat("\\", "%", '_', "\\_");
      ReplaceOne('\\', '_', "\\_");
    }
  }

  predicate Contains(text: string, value: string) {
    exists i | 0 <= i <= |text| :: value <= text[i..]
  }

  lemma LikeStep(c: char, more: string, text: string)
    ensures Like(EscapedChar(c) + more, text) <==> text != "" && text[0] == c && Like(more, text[1..])
  {
    var pattern := EscapedChar(c) + more;
    assert pattern[|EscapedChar(c)|..] == more;
  }

  lemma {:induction false} LikePrefix(value: string, tail: string, text: string)
    ensures Like(LikeEscape(value) + tail, text) <==> value <= text && Like(tail, text[|value|..])
    decreases |value|
  {
    hide Like, EscapedChar;
    if value == "" {
      assert LikeEscape("") + tail == tail && text[0..] == text;
    } else {
      hide LikeEscape;
      LikeEscapeCons(value);
      assert LikeEscape(value) + tail == EscapedChar(value[0]) + (LikeEscape(value[1..]) + tail);
      LikeStep(value[0], LikeEscape(value[1..]) + tail, text);
      if text != "" {
        LikePrefix(value[1..], tail, text[1..]);
        PrefixCons(value, text);
      }
    }
  }

  lemma PrefixCons(value: string, text: string)
    requires value != "" && text != ""
    ensures value <= text <==> value[0] == text[0] && value[1..] <= text[1..]
    ensures value <= text ==> text[1..][|value| - 1..] == text[|value|..]
  {
    assert value == [value[0]] + value[1..] && text == [text[0]] + text[1..];
  }

  lemma {:induction false} PercentMatchesAll(text: string)
    ensures Like("%", text)
    decreases |text|
  {
    assert "%"[1..] == "";
    if text != "" {
      PercentMatchesAll(text[1..]);
    }
  }

  /** The escaped pattern matches exactly the texts that contain the literal. */
  lemma {:induction false} LikeIsContains(value: string, text: string)
    ensures Like("%" + LikeEscape(value) + "%", text) <==> Contains(text, value)
    decreases |text|
  {
    var pattern := "%" + LikeEscape(value) + "%";
    assert pattern[1..] == LikeEscape(value) + "%";
    LikePrefix(value, "%", text);
    if value <= text {
      PercentMatchesAll(text[|value|..]);
      assert text[0..] == text;
    } else if text != "" {
      LikeIsContains(value, text[1..]);
      ContainsLater(text, value);
    }
  }

  lemma ContainsLater(text: string, value: string)
    requires text != "" && !(value <= text)
    ensures Contains(text, value) <==> Contains(text[1..], value)
  {
    if Contains(text, value) {
      var i :| 0 <= i <= |text| && value <= text[i..];
      assert text[0..] == text;
      assert text[1..][i - 1..] == text[i..];
    }
    if Contains(text[1..], value) {
      var i :| 0 <= i <= |text[1..]| && value <= text[1..][i..];
      assert text[i + 1..] == text[1..][i..];
    }
  }

  // ------------------------------------------------------------------ lowering

  function LangKey(lang: string): string {
    Scanner.Lowered(PythonText.Strip(lang))
  }

  function Lower(n: Node, caseSensitive: bool): Predicate {
    match n
    case Substring(value, c) => ContentLike("%" + LikeEscape(value) + "%", c)
    case Regex(pattern, c) => ContentRegex(pattern, c)
    case RepoFilter(pattern) => RepoRegex(pattern)
    case PathFilter(pattern) => PathRegex(pattern, caseSensitive)
    case LangFilter(lang) => LangEquals(LangKey(lang))
    case SymbolFilter(name) => HasSymbol(name, caseSensitive)
    case BranchFilter(branch) => OnBranch(branch)
    case CommitFilter(prefix) => AtCommit(prefix)
    case Not(child) => NotP(Lower(child, caseSensitive))
    case And(children) => AndP(LowerAll(children, caseSensitive))
    case Or(children) => OrP(LowerAll(children, caseSensitive))
  }

  function LowerAll(ns: seq<Node>, caseSensitive: bool): (ps: seq<Predicate>)
    ensures |ps| == |ns|
  {
    if ns == [] then [] else [Lower(ns[0], caseSensitive)] + LowerAll(ns[1..], caseSensitive)
  }

  /** An affirmative branch or commit scope: one under an even number of negations. */
  predicate HasBranchFilter(n: Node, affirmative: bool) {
    match n
    case BranchFilter(_) => affirmative
    case CommitFilter(_) => affirmative
    case Not(child) => HasBranchFilter(child, !affirmative)
    case And(children) => exists c <- children :: HasBranchFilter(c, affirmative)
    case Or(children) => exists c <- children :: HasBranchFilter(c, affirmative)
    case _ => false
  }

  predicate GlobalCase(n: Node) {
    match n
    case Substring(_, c) => c
    case Regex(_, c) => c
    case Not(child) => GlobalCase(child)
    case And(children) => exists c <- children :: GlobalCase(c)
    case Or(children) => exists c <- children :: GlobalCase(c)
    case _ => false
  }

  /** The search predicate; `flag` is the case flag of a caller that knows it. */
  function CompileQuery(n: Node, flag: Option<bool>): Predicate {
    var p := Lower(n, if flag.Some? then flag.value else GlobalCase(n));
    if HasBranchFilter(n, true) then p else AndP([p, OnDefaultBranch])
  }

  // ------------------------------------------------------------------ three-valued meaning

  /** The value of a predicate when each atom has the value `atom` gives it. */
  function Eval(p: Predicate, atom: Predicate -> Truth): Truth {
    match p
    case NotP(operand) => Negation(Eval(operand, atom))
    case AndP(operands) => EvalAll(operands, atom, false)
    case OrP(operands) => EvalAll(operands, atom, true)
    case _ => atom(p)
  }

  function EvalAll(ps: seq<Predicate>, atom: Predicate -> Truth, isOr: bool): Truth {
    if ps == [] then Neutral(isOr) else Combine(Eval(ps[0], atom), EvalAll(ps[1..], atom, isOr), isOr)
  }

  /** Lowering keeps the three-valued meaning of the tree, atom by atom. */
  lemma {:induction false} LowerKeepsValue(n: Node, caseSensitive: bool, atom: Predicate -> Truth)
    ensures Eval(Lower(n, caseSensitive), atom) == Value(n, leaf => atom(Lower(leaf, caseSensitive)))
    decreases n, 1
  {
    match n
    case Not(child) => LowerKeepsValue(child, caseSensitive, atom);
    case And(children) => LowerAllKeepsValue(children, caseSensitive, atom, false);
    case Or(children) => LowerAllKeepsValue(children, caseSensitive, atom, true);
    case _ =>
  }

  lemma {:induction false} LowerAllKeepsValue(ns: seq<Node>, caseSensitive: bool, atom: Predicate -> Truth, isOr: bool)
    ensures EvalAll(LowerAll(ns, caseSensitive), atom, isOr)
      == ValueAll(ns, leaf => atom(Lower(leaf, caseSensitive)), isOr)
    decreases ns, 0
  {
    if ns != [] {
      LowerKeepsValue(ns[0], caseSensitive, atom);
      LowerAllKeepsValue(ns[1..], caseSensitive, atom, isOr);
      assert LowerAll(ns, caseSensitive)[1..] == LowerAll(ns[1..], caseSensitive);
    }
  }

  /** The negation normal form of a lowered tree, or of its negation: negations stand before atoms only. */
  function Nnf(n: Node, positive: bool, caseSensitive: bool): Predicate {
    match n
    case Not(child) => Nnf(child, !positive, caseSensitive)
    case And(children) =>
      if positive then AndP(NnfAll(children, positive, caseSensitive)) else OrP(NnfAll(children, positive, caseSensitive))
    case Or(children) =>
      if positive then OrP(NnfAll(children, positive, caseSensitive)) else AndP(NnfAll(children, positive, caseSensitive))
    case _ => if positive then Lower(n, caseSensitive) else NotP(Lower(n, caseSensitive))
  }

  function NnfAll(ns: seq<Node>, positive: bool, caseSensitive: bool): (ps: seq<Predicate>)
    ensures |ps| == |ns|
  {
    if ns == [] then [] else [Nnf(ns[0], positive, caseSensitive)] + NnfAll(ns[1..], positive, caseSensitive)
  }

  function Signed(t: Truth, positive: bool): Truth {
    if positive then t else Negation(t)
  }

  /** The lowered predicate and its negation normal form agree on every three-valued assignment. */
  lemma {:induction false} NnfAgrees(n: Node, positive: bool, caseSensitive: bool, atom: Predicate -> Truth)
    ensures Eval(Nnf(n, positive, caseSensitive), atom) == Signed(Eval(Lower(n, caseSensitive), atom), positive)
    decreases n, 1
  {
    hide NnfAll, LowerAll, EvalAll, LikeEscape, LangKey;
    match n
    case Not(child) => NnfAgrees(child, !positive, caseSensitive, atom);
    case And(children) => NnfAllAgrees(children, positive, caseSensitive, atom, !positive);
    case Or(children) => NnfAllAgrees(children, positive, caseSensitive, atom, positive);
    case _ => LeafIsAtom(n, caseSensitive, atom);
  }

  lemma LeafIsAtom(n: Node, caseSensitive: bool, atom: Predicate -> Truth)
    requires IsLeaf(n)
    ensures Eval(Lower(n, caseSensitive), atom) == atom(Lower(n, caseSensitive))
    ensures Eval(NotP(Lower(n, caseSensitive)), atom) == Negation(atom(Lower(n, caseSensitive)))
  {
  }

  lemma {:induction false} NnfAllAgrees(
    ns: seq<Node>, positive: bool, caseSensitive: bool, atom: Predicate -> Truth, isOr: bool)
    ensures EvalAll(NnfAll(ns, positive, caseSensitive), atom, isOr)
      == Signed(EvalAll(LowerAll(ns, caseSensitive), atom, if positive then isOr else !isOr), positive)
    decreases ns, 0
  {
    if ns != [] {
      NnfAgrees(ns[0], positive, caseSensitive, atom);
      NnfAllAgrees(ns[1..], positive, caseSensitive, atom, isOr);
      assert NnfAll(ns, positive, caseSensitive)[1..] == NnfAll(ns[1..], positive, caseSensitive);
      assert LowerAll(ns, caseSensitive)[1..] == LowerAll(ns[1..], caseSensitive);
    }
  }

  /** Some branch or commit atom stands without a negation. */
  predicate HasPositiveScope(p: Predicate) {
    match p
    case OnBranch(_) => true
    case AtCommit(_) => true
    case AndP(operands) => exists q <- operands :: HasPositiveScope(q)
    case OrP(operands) => exists q <- operands :: HasPositiveScope(q)
    case _ => false
  }

  /** A query opts out of the default branch exactly when its normal form has a positive scope. */
  lemma {:induction false} ScopeIsPositiveLiteral(n: Node, affirmative: bool, caseSensitive: bool)
    ensures HasBranchFilter(n, affirmative) <==> HasPositiveScope(Nnf(n, affirmative, caseSensitive))
    decreases n, 1
  {
    hide NnfAll, LikeEscape, LangKey;
    match n
    case Not(child) => ScopeIsPositiveLiteral(child, !affirmative, caseSensitive);
    case And(children) => ScopesArePositiveLiterals(children, affirmative, caseSensitive);
    case Or(children) => ScopesArePositiveLiterals(children, affirmative, caseSensitive);
    case _ =>
  }

  lemma {:induction false} ScopesArePositiveLiterals(ns: seq<Node>, affirmative: bool, caseSensitive: bool)
    ensures (exists c <- ns :: HasBranchFilter(c, affirmative))
      <==> exists q <- NnfAll(ns, affirmative, caseSensitive) :: HasPositiveScope(q)
    decreases ns, 0
  {
    if ns != [] {
      var qs := NnfAll(ns, affirmative, caseSensitive);
      ScopeIsPositiveLiteral(ns[0], affirmative, caseSensitive);
      ScopesArePositiveLiterals(ns[1..], affirmative, caseSensitive);
      assert ns == [ns[0]] + ns[1..] && qs == [qs[0]] + NnfAll(ns[1..], affirmative, caseSensitive);
    }
  }

  // ------------------------------------------------------------------ case

  predicate HasContentTerm(n: Node) {
    exists l <- LeavesOf(n) :: l.Substring? || l.Regex?
  }

  /**
   The flag derived from the tree is the query's flag if the tree has a content
   term, and insensitive otherwise: only such a query needs the flag passed in.
   */
  lemma {:induction false} GlobalCaseIsTheFlag(n: Node, flag: bool)
    requires AllProper(LeavesOf(n), flag)
    ensures GlobalCase(n) <==> flag && HasContentTerm(n)
    decreases n, 1
  {
    match n
    case Not(child) => GlobalCaseIsTheFlag(child, flag);
    case And(children) => GlobalCasesAreTheFlag(children, flag);
    case Or(children) => GlobalCasesAreTheFlag(children, flag);
    case _ => assert n in LeavesOf(n);
  }

  lemma {:induction false} GlobalCasesAreTheFlag(ns: seq<Node>, flag: bool)
    requires AllProper(LeavesOfAll(ns), flag)
    ensures (exists c <- ns :: GlobalCase(c)) <==> flag && exists l <- LeavesOfAll(ns) :: l.Substring? || l.Regex?
    decreases ns, 0
  {
    if ns != [] {
      ProperParts(ns, flag);
      GlobalCaseIsTheFlag(ns[0], flag);
      GlobalCasesAreTheFlag(ns[1..], flag);
      assert ns == [ns[0]] + ns[1..];
    }
  }
}
