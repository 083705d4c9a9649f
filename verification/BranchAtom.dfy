/** The `branch` parameter of a search, appended to the query as an atom (app/main.py). */
module BranchAtom {
  import opened Wrappers
  import opened QueryAst
  import opened Scanner
  import opened ScanLocality
  import opened Lexemes
  import opened PythonText
  import opened Parser
  import opened GrammarLocality
  import opened Normalize
  import opened QueryPrint
  import opened QueryRoundTrip
  import opened Compiler

  function Atom(branch: string): string {
    "branch:" + Quoted(branch, '"')
  }

  function AppendBranchAtom(query: string, branch: string): string {
    Strip(query + " " + Atom(branch))
  }

  // ------------------------------------------------------------------ reading the atom back

  /** A value that ends in a backslash swallows its closing delimiter, and at the end of the text nothing closes it. */
  lemma {:induction false} LiteralRunsOff(v: string, delimiter: char)
    requires delimiter != '\\' && EndsWithBackslash(v)
    ensures ReadBody(Escape(v, delimiter) + [delimiter], delimiter) == None
    decreases |v|
  {
    assert Escape(v, delimiter) + [delimiter] + "" == Escape(v, delimiter) + [delimiter];
    if v == "\\" {
      assert v[1..] == "" && Escape(v, delimiter) == "\\";
      assert "\\" + [delimiter] == ['\\', delimiter] + "";
      EscapedHead(delimiter, "");
    } else {
      ReadBodyOfEscape(v, delimiter, "");
      assert v[1..][|v| - 2] == v[|v| - 1];
      LiteralRunsOff(v[1..], delimiter);
      assert Escape(v[1..], delimiter) + [delimiter] + "" == Escape(v[1..], delimiter) + [delimiter];
    }
  }

  lemma AtomLexeme(branch: string)
    requires branch != "" && !EndsWithBackslash(branch)
    ensures NextLexeme(Atom(branch)) == Ok(Lexeme(BRANCH, branch, |Atom(branch)|))
  {
    var n := BranchFilter(branch);
    FieldIsKnown(n);
    FieldEmits(n, true);
    hide KnownField, EmitField, Quoted, EndsWithBackslash;
    FieldReads("branch", branch, "", BRANCH);
    assert "branch" + ":" + Quoted(branch, '"') + "" == Atom(branch);
    assert "branch" + ":" + Quoted(branch, '"') == Atom(branch);
  }

  lemma AtomFails(branch: string)
    requires branch == "" || EndsWithBackslash(branch)
    ensures NextLexeme(Atom(branch)).Err?
  {
    var text := Atom(branch);
    AtomField(branch);
    hide KnownField, Escape, ReadBody, PrefixLength;
    var value := Quoted(branch, '"');
    assert value[0] == '"' && value[1..] == Escape(branch, '"') + "\"";
    if branch == "" {
      EmptyLiteral();
    } else {
      LiteralRunsOff(branch, '"');
    }
  }

  lemma EmptyLiteral()
    ensures ReadBody(Escape("", '"') + "\"", '"') == Some(("", 1))
  {
    assert "" + "\"" == "\"";
  }

  lemma AtomField(branch: string)
    ensures var text := Atom(branch);
      HasField(text) && NextLexeme(text) == FieldLexeme(text) && PrefixLength(text) == 6
      && text[..6] == "branch" && text[7..] == Quoted(branch, '"')
  {
    hide Quoted, FieldLexeme, EmitField, ReadFieldValue;
    var text := Atom(branch);
    PrefixLengthIs(text, 6);
    assert text[..6] == "branch";
    FieldIsKnown(BranchFilter(branch));
  }

  lemma {:induction false} StripLeftStops(a: string, b: string)
    requires b != "" && !IsPythonSpace(b[0])
    ensures StripLeft(a + b) == StripLeft(a) + b
    decreases |a|
  {
    hide IsPythonSpace;
    if a == "" {
      assert a + b == b;
    } else if IsPythonSpace(a[0]) {
      StripLeftStops(a[1..], b);
      assert (a + b)[1..] == a[1..] + b;
    }
  }

  lemma AppendedText(query: string, branch: string)
    ensures AppendBranchAtom(query, branch) == StripLeft(query + " ") + Atom(branch)
  {
    var text := query + " " + Atom(branch);
    assert text == (query + " ") + Atom(branch);
    AtomEnds(branch);
    hide IsPythonSpace, Atom;
    StripLeftStops(query + " ", Atom(branch));
    var stripped := StripLeft(query + " ") + Atom(branch);
    assert stripped[|stripped| - 1] == Atom(branch)[|Atom(branch)| - 1];
  }

  lemma AtomEnds(branch: string)
    ensures Atom(branch)[0] == 'b' && Atom(branch)[|Atom(branch)| - 1] == '"'
    ensures !IsPythonSpace('b') && !IsPythonSpace('"')
  {
  }

  /** What stands before the atom: nothing, or the query without leading whitespace and a space. */
  lemma {:induction false} SeparatedPrefix(query: string)
    ensures StripLeft(query + " ") == if StripLeft(query) == "" then "" else StripLeft(query) + " "
    decreases |query|
  {
    if query == "" {
      assert query + " " == " " && " "[1..] == "";
    } else if IsPythonSpace(query[0]) {
      SeparatedPrefix(query[1..]);
      assert (query + " ")[1..] == query[1..] + " ";
    }
  }

  lemma AppendedIs(query: string, branch: string)
    ensures AppendBranchAtom(query, branch) ==
      if StripLeft(query) == "" then Atom(branch) else StripLeft(query) + (" " + Atom(branch))
  {
    AppendedText(query, branch);
    SeparatedPrefix(query);
    hide Atom;
    var front := StripLeft(query);
    assert front + " " + Atom(branch) == front + (" " + Atom(branch));
    assert "" + Atom(branch) == Atom(branch);
  }
  // ------------------------------------------------------------------ the tokens with their columns

  lemma FollowingTwice(a: seq<Spanned>, b: seq<Spanned>, rest: Result<seq<Spanned>, QueryParseError>)
    ensures Following(a, Following(b, rest)) == Following(a + b, rest)
  {
    assert rest.Ok? ==> a + (b + rest.value) == (a + b) + rest.value;
  }

  /** Text at a distance leaves the tokens before it where they are. */
  lemma {:induction false} ScanConcat(s: string, tail: string, position: nat)
    requires Scan(s, position).Ok? && Apart(tail)
    ensures Scan(s + tail, position) == Following(Scan(s, position).value, Scan(tail, position + |s|))
    decreases |s|
  {
    hide NextLexeme;
    if s == "" {
      assert s + tail == tail;
      FollowingNothing(Scan(tail, position));
    } else if IsSpace(s[0]) {
      ScanConcat(s[1..], tail, position + 1);
      assert (s + tail)[1..] == s[1..] + tail;
    } else {
      var l := NextLexeme(s).value;
      LexemeInFront(s, tail);
      ScanConcat(s[l.length..], tail, position + l.length);
      assert (s + tail)[l.length..] == s[l.length..] + tail;
      var one := [Spanned(Token(l.kind, l.value, position), position + l.length)];
      FollowingTwice(one, Scan(s[l.length..], position + l.length).value, Scan(tail, position + |s|));
    }
  }

  lemma ScanAtom(branch: string, position: nat)
    requires branch != "" && !EndsWithBackslash(branch)
    ensures Scan(Atom(branch), position) ==
      Ok([Spanned(Token(BRANCH, branch, position), position + |Atom(branch)|)])
  {
    hide NextLexeme, Quoted, EndsWithBackslash;
    AtomLexeme(branch);
    AtomEnds(branch);
    var one := [Spanned(Token(BRANCH, branch, position), position + |Atom(branch)|)];
    assert Atom(branch)[|Atom(branch)|..] == "" && one + [] == one;
  }

  /** The column of the appended atom. */
  function AtomColumn(query: string): nat {
    if StripLeft(query) == "" then 0 else |StripLeft(query)| + 1
  }

  function AtomToken(query: string, branch: string): Token {
    Token(BRANCH, branch, AtomColumn(query))
  }

  /** Behind a query that scans, the atom is scanned by itself. */
  lemma AppendedScan(query: string, branch: string)
    requires Scan(StripLeft(query), 0).Ok?
    ensures Scan(AppendBranchAtom(query, branch), 0) ==
      Following(Scan(StripLeft(query), 0).value, Scan(Atom(branch), AtomColumn(query)))
  {
    hide Atom, StripLeft, AppendBranchAtom, NextLexeme;
    AppendedIs(query, branch);
    var front, atom := StripLeft(query), Atom(branch);
    if front == "" {
      NoTokens();
      FollowingNothing(Scan(atom, 0));
    } else {
      ScanConcat(front, " " + atom, 0);
      assert (" " + atom)[1..] == atom;
      assert Scan(" " + atom, |front|) == Scan(atom, |front| + 1);
    }
  }

  /** The tokens of the appended query are the query's, where they were, and one more. */
  lemma AppendedTokens(query: string, branch: string)
    requires Tokens(StripLeft(query)).Ok? && branch != "" && !EndsWithBackslash(branch)
    ensures Tokens(AppendBranchAtom(query, branch)) == Ok(Tokens(StripLeft(query)).value + [AtomToken(query, branch)])
  {
    TokensScan(StripLeft(query));
    hide Atom, EndsWithBackslash, StripLeft, AppendBranchAtom, NextLexeme, Tokens, Scan;
    AppendedScan(query, branch);
    ScanAtom(branch, AtomColumn(query));
    var spans := Scan(StripLeft(query), 0).value;
    var last := Spanned(AtomToken(query, branch), AtomColumn(query) + |Atom(branch)|);
    TokensSnoc(spans, last);
    TokensAre(StripLeft(query), spans);
    TokensAre(AppendBranchAtom(query, branch), spans + [last]);
  }

  lemma NoTokens()
    ensures Scan("", 0) == Ok([])
  {
  }

  lemma TokensScan(q: string)
    ensures Tokens(q).Ok? <==> Scan(q, 0).Ok?
  {
    hide Scan;
  }

  lemma TokensAre(q: string, spans: seq<Spanned>)
    requires Scan(q, 0) == Ok(spans)
    ensures Tokens(q) == Ok(TokensOf(spans))
  {
    hide Scan;
  }

  lemma TokensSnoc(spans: seq<Spanned>, s: Spanned)
    ensures TokensOf(spans + [s]) == TokensOf(spans) + [s.token]
  {
  }

  // ------------------------------------------------------------------ when the atom is read

  predicate TokenAt(spans: seq<Spanned>, position: nat) {
    exists s <- spans :: s.token.position == position
  }

  lemma TokenAtRest(first: Spanned, rest: seq<Spanned>, position: nat)
    requires TokenAt([first] + rest, position) && first.token.position != position
    ensures TokenAt(rest, position)
  {
  }

  lemma {:induction false} NoTokenBefore(s: string, from: nat, position: nat)
    requires Scan(s, from).Ok? && position < from
    ensures !TokenAt(Scan(s, from).value, position)
    decreases |s|
  {
    hide NextLexeme;
    if s != "" {
      if IsSpace(s[0]) {
        NoTokenBefore(s[1..], from + 1, position);
      } else {
        var l := NextLexeme(s).value;
        NoTokenBefore(s[l.length..], from + l.length, position);
      }
    }
  }

  /** A lexeme that ends inside the front is a lexeme of the front alone. */
  lemma LexemeOfFront(s: string, tail: string)
    requires s != "" && !IsSpace(s[0]) && tail != "" && IsSpace(tail[0])
    requires NextLexeme(s + tail).Ok? && NextLexeme(s + tail).value.length <= |s|
    ensures NextLexeme(s) == NextLexeme(s + tail)
  {
    hide NextLexeme, IsSpace;
    var t, n := s + tail, NextLexeme(s + tail).value.length;
    NotLast(t);
    assert n == |s| ==> t[n] == tail[0];
    assert n < |s| ==> s[n..][0] == t[n];
    LexemeIsLocal(t, s[n..]);
    assert t[..n] + s[n..] == s;
  }

  /** If a token starts right behind the gap, no lexeme has run over the gap: the front scans by itself. */
  lemma {:induction false} FrontScans(s: string, atom: string, from: nat)
    requires Scan(s + (" " + atom), from).Ok?
    requires TokenAt(Scan(s + (" " + atom), from).value, from + |s| + 1)
    ensures Scan(s, from).Ok?
    decreases |s|
  {
    hide NextLexeme, TokenAt;
    var tail, position := " " + atom, from + |s| + 1;
    var t := s + tail;
    if s != "" {
      if IsSpace(s[0]) {
        assert t[1..] == s[1..] + tail;
        FrontScans(s[1..], atom, from + 1);
      } else {
        var l := NextLexeme(t).value;
        var first := Spanned(Token(l.kind, l.value, from), from + l.length);
        TokenAtRest(first, Scan(t[l.length..], from + l.length).value, position);
        if l.length <= |s| {
          LexemeOfFront(s, tail);
          assert t[l.length..] == s[l.length..] + tail;
          FrontScans(s[l.length..], atom, from + l.length);
        } else {
          LexemeEndsSolid(t);
          assert t[|s|] == ' ';
          NoTokenBefore(t[l.length..], from + l.length, position);
        }
      }
    }
  }

  /** The appended query holds the filter `branch:"<branch>"` as a token of its own. */
  predicate ReadsAtom(query: string, branch: string) {
    var tokens := Tokens(AppendBranchAtom(query, branch));
    tokens.Ok? && AtomToken(query, branch) in tokens.value
  }

  lemma AtomIsInSpans(spans: seq<Spanned>, t: Token)
    requires t in TokensOf(spans)
    ensures TokenAt(spans, t.position)
  {
    var i :| 0 <= i < |spans| && TokensOf(spans)[i] == t;
    assert spans[i].token == t;
  }

  /**
   The filter is read back exactly when the query scans by itself and the branch does
   not end in a backslash (a caller appends no empty one). A query that does not scan,
   such as one with an open quote, swallows it; behind one that scans, a branch that
   is not read back is refused with the whole query.
   */
  lemma BranchReadsBackExactlyWhen(query: string, branch: string)
    ensures ReadsAtom(query, branch) <==>
      Tokens(StripLeft(query)).Ok? && branch != "" && !EndsWithBackslash(branch)
    ensures Tokens(StripLeft(query)).Ok? ==>
      (Tokens(AppendBranchAtom(query, branch)).Err? <==> branch == "" || EndsWithBackslash(branch))
  {
    var front, all := StripLeft(query), AppendBranchAtom(query, branch);
    TokensScan(front);
    TokensScan(all);
    if ReadsAtom(query, branch) {
      hide Atom, StripLeft, AppendBranchAtom, NextLexeme, Scan, TokenAt, EndsWithBackslash;
      var spans := Scan(all, 0).value;
      AtomIsInSpans(spans, AtomToken(query, branch));
      AppendedIs(query, branch);
      if front == "" {
        NoTokens();
      } else {
        FrontScans(front, Atom(branch), 0);
      }
    }
    if Scan(front, 0).Ok? {
      hide Atom, StripLeft, AppendBranchAtom, NextLexeme, Tokens, EndsWithBackslash;
      AppendedScan(query, branch);
      AtomScans(branch, AtomColumn(query));
      if branch != "" && !EndsWithBackslash(branch) {
        AppendedTokens(query, branch);
        assert AtomToken(query, branch) in Tokens(front).value + [AtomToken(query, branch)];
      }
    }
  }

  lemma AtomScans(branch: string, position: nat)
    ensures Scan(Atom(branch), position).Ok? <==> branch != "" && !EndsWithBackslash(branch)
  {
    hide NextLexeme, Quoted, EndsWithBackslash;
    if branch != "" && !EndsWithBackslash(branch) {
      ScanAtom(branch, position);
    } else {
      AtomFails(branch);
    }
  }

  // ------------------------------------------------------------------ the open literal

  predicate Plain(s: string) {
    forall i | 0 <= i < |s| :: s[i] != '"' && s[i] != '\\'
  }

  lemma {:induction false} PlainBody(body: string, rest: string)
    requires Plain(body)
    ensures ReadBody(body + ("\"" + rest), '"') == Some((body, |body| + 1))
    decreases |body|
  {
    var text := body + ("\"" + rest);
    if body != "" {
      PlainBody(body[1..], rest);
      assert text[1..] == body[1..] + ("\"" + rest);
      assert [body[0]] + body[1..] == body;
    }
  }

  lemma {:induction false} OpenBody(s: string)
    requires Plain(s)
    ensures ReadBody(s, '"') == None
    decreases |s|
  {
    if s != "" {
      OpenBody(s[1..]);
    }
  }

  lemma OpenQuoteFails(words: string)
    requires Plain(words)
    ensures StripLeft("\"" + words) == "\"" + words && Tokens("\"" + words).Err?
  {
    hide ReadBody;
    var query := "\"" + words;
    OpenBody(words);
    assert query[1..] == words;
    assert NextLexeme(query).Err?;
  }

  lemma QuotedHead(text: string, body: string, rest: string)
    requires Plain(body) && text == "\"" + (body + ("\"" + rest))
    ensures Shapes(text) == Cons((SUBSTRING, body), Shapes(rest))
  {
    hide ReadBody;
    assert text[1..] == body + ("\"" + rest);
    PlainBody(body, rest);
    assert NextLexeme(text) == Ok(Lexeme(SUBSTRING, body, |body| + 2));
    hide NextLexeme;
    assert text[|body| + 2..] == rest;
  }

  lemma SwallowedText(words: string, branch: string)
    requires StripLeft("\"" + words) == "\"" + words
    ensures AppendBranchAtom("\"" + words, branch) ==
      "\"" + ((words + " branch:") + ("\"" + (Escape(branch, '"') + "\"")))
  {
    hide StripLeft, AppendBranchAtom, Escape;
    AppendedIs("\"" + words, branch);
  }

  /**
   A query that is an open quote does not scan. With a branch, the atom's own quote
   closes the literal, and what was the branch's value is scanned as query text.
   */
  lemma OpenQuoteSwallowsTheAtom(words: string, branch: string)
    requires Plain(words)
    ensures StripLeft("\"" + words) == "\"" + words && Tokens("\"" + words).Err?
    ensures Shapes(AppendBranchAtom("\"" + words, branch)) ==
      Cons((SUBSTRING, words + " branch:"), Shapes(Escape(branch, '"') + "\""))
  {
    OpenQuoteFails(words);
    assert Plain(" branch:");
    assert Plain(words + " branch:");
    hide *;
    SwallowedText(words, branch);
    QuotedHead(AppendBranchAtom("\"" + words, branch), words + " branch:", Escape(branch, '"') + "\"");
  }

  /** The query `"foo` with the branch `main` is accepted, and held to no branch. */
  lemma OpenQuoteEscapesTheBranch()
    ensures Parse("\"foo").Err?
    ensures Parse(AppendBranchAtom("\"foo", "main")) ==
      Ok(And([Substring("foo branch:", false), Substring("main\"", false)]))
  {
    assert Plain("foo");
    hide *;
    assert "\"" + "foo" == "\"foo" && "foo" + " branch:" == "foo branch:" && "main" + "\"" == "main\"";
    OpenQuoteSwallowsTheAtom("foo", "main");
    RefusedByScanner("\"foo");
    EscapedMain();
    BareMain();
    ConsOne((SUBSTRING, "foo branch:"), (SUBSTRING, "main\""));
    TwoTerms(AppendBranchAtom("\"foo", "main"), "foo branch:", "main\"");
  }

  lemma RefusedByScanner(q: string)
    requires Tokens(q).Err?
    ensures Parse(q).Err?
  {
    hide Tokens;
  }

  lemma ConsOne(first: Shape, second: Shape)
    ensures Cons(first, Some([second])) == Some([first, second])
  {
    assert [first] + [second] == [first, second];
  }

  lemma EscapedMain()
    ensures Escape("main", '"') == "main"
  {
    assert "main"[1..] == "ain" && "ain"[1..] == "in" && "in"[1..] == "n" && "n"[1..] == "";
    assert Escape("n", '"') == "n" && Escape("in", '"') == "in" && Escape("ain", '"') == "ain";
  }

  lemma BareMain()
    ensures Shapes("main\"") == Some([(SUBSTRING, "main\"")])
  {
    var s := "main\"";
    BareLengthIs(s, 5);
    PrefixLengthIs(s, 4);
    assert s[5..] == "" && s[..5] == s && |Lowered(s)| == 5;
    assert Shapes("") == Some([]) && [(SUBSTRING, s)] + [] == [(SUBSTRING, s)];
  }

  lemma TwoTerms(q: string, first: string, second: string)
    requires Shapes(q) == Some([(SUBSTRING, first), (SUBSTRING, second)])
    ensures Parse(q) == Ok(And([Substring(first, false), Substring(second, false)]))
  {
    ScanHasShapes(q, 0);
    hide Scan, Shapes, OrExpr, ResolveCase, EofOf, Finalize;
    var ts := Tokens(q).value;
    assert |ts| == 2 && ts[0].kind == SUBSTRING && ts[1].kind == SUBSTRING && ts[0].value == first && ts[1].value == second;
    PairHasNoFlag(ts);
    PairConjoins(ts, 0, ContextOf(ts));
    ParsesExactlyWhen(q, ts);
    TwoKids(Substring(first, false), Substring(second, false));
  }

  lemma PairHasNoFlag(ts: seq<Token>)
    requires |ts| == 2 && ts[0].kind == SUBSTRING && ts[1].kind == SUBSTRING
    ensures !ResolveCase(ts)
  {
    ResolveCaseSnoc([], ts[0]);
    ResolveCaseSnoc([ts[0]], ts[1]);
    assert [] + [ts[0]] == [ts[0]] && [ts[0]] + [ts[1]] == ts;
  }

  lemma PairConjoins(ts: seq<Token>, depth: nat, c: Context)
    requires |ts| == 2 && ts[0].kind == SUBSTRING && ts[1].kind == SUBSTRING
    ensures OrExpr(ts, depth, c) ==
      Ok((RawAnd([Term(Substring(ts[0].value, c.caseSensitive)), Term(Substring(ts[1].value, c.caseSensitive))]), []))
  {
    var one, two := Term(Substring(ts[0].value, c.caseSensitive)), Term(Substring(ts[1].value, c.caseSensitive));
    assert ts[1..] == [ts[1]] && ts[1..][1..] == [];
    assert AndTail([], depth, c) == Ok(([], [])) && OrTail([], depth, c) == Ok(([], []));
    assert [two] + [] == [two] && [one] + [two] == [one, two];
    assert AndTail(ts[1..], depth, c) == Ok(([two], []));
    assert AndExpr(ts, depth, c) == Ok((RawAnd([one, two]), []));
    assert [RawAnd([one, two])] + [] == [RawAnd([one, two])];
  }

  lemma TwoKids(one: Node, two: Node)
    requires IsLeaf(one) && IsLeaf(two)
    ensures Finalize(RawAnd([Term(one), Term(two)])) == Ok(Some(And([one, two])))
  {
    assert [Term(one)] + [Term(two)] == [Term(one), Term(two)];
    KidsConcat([Term(one)], [Term(two)]);
    OneKid(Term(one));
    OneKid(Term(two));
    assert [one] + [two] == [one, two] && [one, two][..1] == [one] && [one][..0] == [];
    assert Flatten([one], false) == [] + [one] == [one];
    assert Flatten([one, two], false) == [one] + [two];
  }

  // ------------------------------------------------------------------ what the appended query means

  lemma {:induction false} RawValueSnoc(raws: seq<Raw>, last: Raw, leaf: Node -> Truth, isOr: bool)
    ensures RawValueAll(raws + [last], leaf, isOr) == Erased(RawValueAll(raws, leaf, isOr), RawValue(last, leaf), isOr)
    decreases |raws|
  {
    hide RawValue;
    if raws == [] {
      assert raws + [last] == [last] && [last][1..] == [];
    } else {
      assert (raws + [last])[1..] == raws[1..] + [last];
      RawValueSnoc(raws[1..], last, leaf, isOr);
    }
  }

  lemma GroupedValue(raws: seq<Raw>, leaf: Node -> Truth, isOr: bool)
    requires raws != []
    ensures RawValue(Grouped(raws, isOr), leaf) == RawValueAll(raws, leaf, isOr)
  {
    if |raws| == 1 {
      assert raws[1..] == [];
    }
  }

  lemma TermValue(n: Node, leaf: Node -> Truth)
    ensures RawValue(Term(n), leaf) == Some(leaf(n))
  {
  }

  function ContextOf(ts: seq<Token>): Context {
    Context(ResolveCase(ts), EofOf(ts))
  }

  /** The grammar reads the tokens to the end. */
  predicate Reads(ts: seq<Token>) {
    Complete(OrExpr(ts, 0, ContextOf(ts)))
  }

  /** The tokens parse as a whole; they may hold nothing but case terms. */
  predicate Whole(ts: seq<Token>) {
    Reads(ts) && Finalize(OrExpr(ts, 0, ContextOf(ts)).value.0).Ok?
  }

  /** Complete but for the operand of a last `or`. */
  predicate Dangling(ts: seq<Token>) {
    EndsIn(ts, OR) && Whole(Init(ts))
  }

  /** Behind these tokens an atom makes a query: none, a whole query, or one that lacks its last operand. */
  predicate TakesAtom(ts: seq<Token>) {
    ts == [] || Whole(ts) || Dangling(ts)
  }

  /** The arms of the top-level disjunction. */
  function TopArms(ts: seq<Token>): (arms: seq<Raw>)
    requires Whole(ts)
    ensures arms != []
  {
    Arms(ts, 0, ContextOf(ts))
  }

  /** The arms of the query that the atom does not join. */
  function FreeArms(ts: seq<Token>): seq<Raw>
    requires TakesAtom(ts)
  {
    if ts == [] then [] else if Whole(ts) then Init(TopArms(ts)) else TopArms(Init(ts))
  }

  /** The operands of the arm that the atom joins; none if it is an arm of its own. */
  predicate JoinsArm(ts: seq<Token>, last: seq<Raw>) {
    if Whole(ts) then last != [] && TopArms(ts)[|TopArms(ts)| - 1] == Grouped(last, false) else last == []
  }

  /** The value of the arm that the atom joins; none if it is an arm of its own. */
  function JoinedArm(ts: seq<Token>, leaf: Node -> Truth): Option<Truth> {
    if Whole(ts) then RawValue(TopArms(ts)[|TopArms(ts)| - 1], leaf) else None
  }

  /** The value of a query, arm by arm, when its last arm is held to the branch. */
  function HeldValue(ts: seq<Token>, branch: string, leaf: Node -> Truth): Option<Truth>
    requires TakesAtom(ts)
  {
    Erased(
      RawValueAll(FreeArms(ts), leaf, true),
      Erased(JoinedArm(ts, leaf), Some(leaf(BranchFilter(branch))), false),
      true)
  }

  lemma ResolveCaseSnoc(ts: seq<Token>, t: Token)
    requires t.kind != CASE
    ensures ResolveCase(ts + [t]) == ResolveCase(ts)
  {
    assert (ts + [t])[..|ts|] == ts;
  }

  /** A complete parse is the same in front of a token that is no case flag. */
  lemma SameTree(ts: seq<Token>, c: Context, d: Context)
    requires OrExpr(ts, 0, c).Ok? && c.caseSensitive == d.caseSensitive
    ensures OrExpr(ts, 0, d) == OrExpr(ts, 0, c) && Arms(ts, 0, d) == Arms(ts, 0, c)
  {
    OrExprAnyEof(ts, 0, c, d.eof);
    AndExprAnyEof(ts, 0, c, d.eof);
    OrTailAnyEof(AndExpr(ts, 0, c).value.1, 0, c, d.eof);
  }

  function Leaf(branch: string): Raw {
    Term(BranchFilter(branch))
  }

  /** The tree of the appended query, with the operands `last` of the arm that the atom joins. */
  function Held(free: seq<Raw>, last: seq<Raw>, branch: string): Raw {
    Grouped(free + [Grouped(last + [Leaf(branch)], false)], true)
  }

  lemma AtomAlone(t: Token, c: Context)
    requires t.kind == BRANCH
    ensures OrExpr([t], 0, c) == Ok((Held([], [], t.value), []))
  {
    assert [t][1..] == [] && [] + [Leaf(t.value)] == [Leaf(t.value)] + [];
    assert AndTail([], 0, c) == Ok(([], [])) && OrTail([], 0, c) == Ok(([], []));
    assert Primary([t], 0, c) == Ok((Leaf(t.value), []));
    assert AndExpr([t], 0, c) == Ok((Leaf(t.value), []));
  }

  /** What the tokens must be for the atom behind them to be read to the end. */
  lemma AppendedIsReadOnlyIf(ts: seq<Token>, t: Token)
    requires t.kind == BRANCH && !EndsIn(ts, NOT) && Reads(ts + [t])
    ensures ts == [] || Reads(ts) || (EndsIn(ts, OR) && Reads(Init(ts)))
  {
    hide OrExpr, Arms, ResolveCase, EofOf;
    var d := ContextOf(ts + [t]);
    OrExprCompleted(ts, t, 0, d);
    ResolveCaseSnoc(ts, t);
    if ts != [] {
      if Complete(OrExpr(ts, 0, d)) {
        SameTree(ts, d, ContextOf(ts));
      } else {
        InitCase(ts);
        SameTree(Init(ts), d, ContextOf(Init(ts)));
      }
    }
  }

  lemma InitCase(ts: seq<Token>)
    requires EndsIn(ts, OR)
    ensures ResolveCase(Init(ts)) == ResolveCase(ts)
  {
  }

  /** The tree of the appended query, and when it can be finalized. */
  lemma AppendedTree(ts: seq<Token>, t: Token) returns (free: seq<Raw>, last: seq<Raw>)
    requires t.kind == BRANCH && (ts == [] || Reads(ts) || (EndsIn(ts, OR) && Reads(Init(ts))))
    ensures OrExpr(ts + [t], 0, ContextOf(ts + [t])) == Ok((Held(free, last, t.value), []))
    ensures TakesAtom(ts) <==> Finalize(Held(free, last, t.value)).Ok?
    ensures TakesAtom(ts) ==> free == FreeArms(ts) && JoinsArm(ts, last)
  {
    hide OrExpr, AndExpr, Arms, ResolveCase, EofOf, Finalize;
    var d := ContextOf(ts + [t]);
    ResolveCaseSnoc(ts, t);
    if ts == [] {
      free, last := [], [];
      assert ts + [t] == [t];
      AtomAlone(t, d);
      NothingReads(ContextOf([]));
    } else if Reads(ts) {
      SameTree(ts, ContextOf(ts), d);
      OrExprNeedsNoOr(ts, 0, d);
      free, last := AtomJoinsLastArm(ts, t, 0, d);
      assert Init(free + [Grouped(last, false)]) == free;
    } else {
      last := [];
      var o, us := ts[|ts| - 1], Init(ts);
      free := Arms(us, 0, ContextOf(us));
      InitCase(ts);
      SameTree(us, ContextOf(us), d);
      AtomIsOwnArm(us, o, t, 0, d);
      assert us + [o, t] == ts + [t];
      assert [] + [Leaf(t.value)] == [Leaf(t.value)];
    }
    FinalizesExactlyWhen(free, last, t.value);
    if last != [] { GrownFinalizes(free, last); }
    if free != [] { GroupedFinalizes(free, true); }
  }

  lemma NothingReads(c: Context)
    ensures OrExpr([], 0, c).Err?
  {
  }

  lemma {:induction false} KidsConcat(a: seq<Raw>, b: seq<Raw>)
    ensures Kids(a + b).Ok? <==> Kids(a).Ok? && Kids(b).Ok?
    ensures Kids(a + b).Ok? ==> Kids(a + b).value == Kids(a).value + Kids(b).value
    decreases |a|
  {
    hide Finalize;
    if a == [] {
      assert a + b == b;
    } else {
      KidsConcat(a[1..], b);
      assert (a + b)[1..] == a[1..] + b;
    }
  }

  lemma OneKid(raw: Raw)
    ensures Kids([raw]).Ok? <==> Finalize(raw).Ok?
    ensures Kids([raw]).Ok? ==> Kids([raw]).value == Listed(Finalize(raw).value)
  {
    hide Finalize;
    assert [raw][1..] == [];
  }

  lemma GroupedFinalizes(raws: seq<Raw>, isOr: bool)
    requires raws != []
    ensures Finalize(Grouped(raws, isOr)).Ok? <==> Kids(raws).Ok?
    ensures Kids(raws).Ok? && |raws| > 1 ==> Finalize(Grouped(raws, isOr)).value == Collapse(Kids(raws).value, isOr)
  {
    if |raws| == 1 {
      assert raws == [raws[0]];
      OneKid(raws[0]);
    }
  }

  lemma TermFinalizes(n: Node)
    ensures Finalize(Term(n)) == Ok(Some(n))
  {
  }

  lemma FinalizesExactlyWhen(free: seq<Raw>, last: seq<Raw>, branch: string)
    ensures Finalize(Held(free, last, branch)).Ok? <==> Kids(free).Ok? && Kids(last).Ok?
  {
    TermFinalizes(BranchFilter(branch));
    hide Finalize, Kids;
    var grown := Grouped(last + [Leaf(branch)], false);
    KidsConcat(last, [Leaf(branch)]);
    OneKid(Leaf(branch));
    GroupedFinalizes(last + [Leaf(branch)], false);
    OneKid(grown);
    KidsConcat(free, [grown]);
    GroupedFinalizes(free + [grown], true);
  }

  lemma GrownFinalizes(free: seq<Raw>, last: seq<Raw>)
    requires last != []
    ensures Finalize(Grouped(free + [Grouped(last, false)], true)).Ok? <==> Kids(free).Ok? && Kids(last).Ok?
  {
    hide Finalize, Kids;
    GroupedFinalizes(last, false);
    OneKid(Grouped(last, false));
    KidsConcat(free, [Grouped(last, false)]);
    GroupedFinalizes(free + [Grouped(last, false)], true);
  }

  lemma GrowsFrom(q: string, tokens: seq<Token>, c: Context, raw: Raw)
    requires Tokens(q) == Ok(tokens) && OrExpr(tokens, 0, c) == Ok((raw, []))
    ensures Grown(raw)
  {
    TokensAreProper(q);
    hide *;
    OrExprIsSound(tokens, 0, c);
    RawIsProper(tokens, c, raw);
    ProperLeaves(raw, c.caseSensitive);
  }

  lemma RawIsProper(tokens: seq<Token>, c: Context, raw: Raw)
    requires OrExpr(tokens, 0, c) == Ok((raw, [])) && Sound(OrExpr(tokens, 0, c), c)
    ensures Proper(raw, c.caseSensitive)
  {
  }

  /** The value of the tree of the appended query. */
  lemma HeldRawValue(free: seq<Raw>, last: seq<Raw>, branch: string, leaf: Node -> Truth)
    ensures RawValue(Held(free, last, branch), leaf) ==
      Erased(RawValueAll(free, leaf, true),
        Erased(RawValueAll(last, leaf, false), Some(leaf(BranchFilter(branch))), false), true)
  {
    hide RawValue, RawValueAll;
    var grown := Grouped(last + [Leaf(branch)], false);
    GroupedValue(free + [grown], leaf, true);
    RawValueSnoc(free, grown, leaf, true);
    GroupedValue(last + [Leaf(branch)], leaf, false);
    RawValueSnoc(last, Leaf(branch), leaf, false);
    TermValue(BranchFilter(branch), leaf);
  }

  lemma NegationIsNotLast(q: string)
    requires Tokens(q).Ok?
    ensures !EndsIn(Tokens(q).value, NOT)
  {
    NoNegationAtEnd(q, 0);
    hide Scan;
  }

  lemma {:induction false} NoNegationAtEnd(s: string, position: nat)
    requires Scan(s, position).Ok?
    ensures var spans := Scan(s, position).value; spans != [] ==> spans[|spans| - 1].token.kind != NOT
    decreases |s|
  {
    hide NextLexeme, IsSpace;
    if s != "" {
      if IsSpace(s[0]) {
        NoNegationAtEnd(s[1..], position + 1);
      } else {
        NotLast(s);
        var n := NextLexeme(s).value.length;
        NoNegationAtEnd(s[n..], position + n);
      }
    }
  }

  /** A query parses exactly when the grammar reads all of it and a term is left. */
  lemma ParsesExactlyWhen(q: string, tokens: seq<Token>)
    requires Tokens(q) == Ok(tokens) && tokens != []
    ensures Parse(q).Ok? ==> Reads(tokens)
    ensures Reads(tokens) ==>
      var r := Finalize(OrExpr(tokens, 0, ContextOf(tokens)).value.0);
      (Parse(q).Ok? <==> r.Ok? && r.value.Some?) && (Parse(q).Ok? ==> r == Ok(Some(Parse(q).value)))
  {
    hide Tokens, OrExpr, Finalize, ResolveCase, EofOf;
  }

  /** A tree that holds the atom is not empty. */
  lemma HeldIsSomething(q: string, tokens: seq<Token>, free: seq<Raw>, last: seq<Raw>, branch: string)
    requires Tokens(q) == Ok(tokens) && Finalize(Held(free, last, branch)).Ok?
    requires OrExpr(tokens, 0, ContextOf(tokens)) == Ok((Held(free, last, branch), []))
    ensures Grown(Held(free, last, branch)) && Finalize(Held(free, last, branch)).value.Some?
  {
    hide Tokens, OrExpr, Finalize, ResolveCase, EofOf, Held, RawValue, RawValueAll, Grown;
    var leaf: Node -> Truth := n => True;
    GrowsFrom(q, tokens, ContextOf(tokens), Held(free, last, branch));
    FinalizeKeepsValue(Held(free, last, branch), leaf);
    HeldRawValue(free, last, branch, leaf);
  }

  /** The parse of the appended query: accepted or not, and from which tree. */
  lemma AppendedParse(query: string, branch: string) returns (free: seq<Raw>, last: seq<Raw>)
    requires Tokens(StripLeft(query)).Ok? && branch != "" && !EndsWithBackslash(branch)
    ensures var ts, q := Tokens(StripLeft(query)).value, AppendBranchAtom(query, branch);
      && (Parse(q).Ok? <==> TakesAtom(ts))
      && (TakesAtom(ts) ==> Finalize(Held(free, last, branch)) == Ok(Some(Parse(q).value)))
      && (TakesAtom(ts) ==> Grown(Held(free, last, branch)) && free == FreeArms(ts) && JoinsArm(ts, last))
  {
    hide StripLeft, AppendBranchAtom, Tokens, OrExpr, Finalize, EndsWithBackslash, Held, Grown, ResolveCase, EofOf,
      FreeArms, JoinsArm;
    var ts, t, q := Tokens(StripLeft(query)).value, AtomToken(query, branch), AppendBranchAtom(query, branch);
    AppendedTokens(query, branch);
    NegationIsNotLast(StripLeft(query));
    ParsesExactlyWhen(q, ts + [t]);
    if ts == [] || Reads(ts) || (EndsIn(ts, OR) && Reads(Init(ts))) {
      free, last := AppendedTree(ts, t);
      if TakesAtom(ts) {
        HeldIsSomething(q, ts + [t], free, last, branch);
      }
    } else {
      free, last := [], [];
      if Reads(ts + [t]) {
        AppendedIsReadOnlyIf(ts, t);
      }
    }
  }

  lemma HeldIs(ts: seq<Token>, free: seq<Raw>, last: seq<Raw>, branch: string, leaf: Node -> Truth)
    requires TakesAtom(ts) && free == FreeArms(ts) && JoinsArm(ts, last)
    ensures RawValue(Held(free, last, branch), leaf) == HeldValue(ts, branch, leaf)
    ensures HeldValue(ts, branch, leaf).Some?
  {
    HeldRawValue(free, last, branch, leaf);
    hide Whole, Dangling, TopArms, FreeArms, RawValue, Held, Grouped;
    if last != [] {
      GroupedValue(last, leaf, false);
    }
  }

  /**
   What a search with a branch means, whatever its atoms do. It is accepted exactly
   when the query is empty, parses as a whole, or lacks only the operand of a last
   `or`. The query's last arm is then held to the branch, and its other arms are not;
   behind a dangling `or` the branch is an arm of its own.
   */
  lemma AppendedQueryMeans(query: string, branch: string, leaf: Node -> Truth)
    requires Tokens(StripLeft(query)).Ok? && branch != "" && !EndsWithBackslash(branch)
    ensures var ts, q := Tokens(StripLeft(query)).value, AppendBranchAtom(query, branch);
      && (Parse(q).Ok? <==> TakesAtom(ts))
      && (TakesAtom(ts) ==> Some(Value(Parse(q).value, leaf)) == HeldValue(ts, branch, leaf))
  {
    var ts := Tokens(StripLeft(query)).value;
    hide *;
    var free, last := AppendedParse(query, branch);
    if TakesAtom(ts) {
      FinalizeKeepsValue(Held(free, last, branch), leaf);
      HeldIs(ts, free, last, branch, leaf);
    }
  }

  // ------------------------------------------------------------------ the compiled query

  lemma {:induction false} FlattenKeepsScope(children: seq<Node>, isOr: bool, affirmative: bool)
    ensures (exists c <- Flatten(children, isOr) :: HasBranchFilter(c, affirmative))
       <==> exists c <- children :: HasBranchFilter(c, affirmative)
    decreases |children|
  {
    if children != [] {
      var n := |children| - 1;
      FlattenKeepsScope(children[..n], isOr, affirmative);
      SplicedKeepsScope(children[n], isOr, affirmative);
      hide Spliced, HasBranchFilter;
      assert children == children[..n] + [children[n]];
    }
  }

  lemma SplicedKeepsScope(child: Node, isOr: bool, affirmative: bool)
    ensures (exists c <- Spliced(child, isOr) :: HasBranchFilter(c, affirmative)) <==> HasBranchFilter(child, affirmative)
  {
  }

  /** An operator scopes like its operands. */
  lemma CollapseKeepsScope(kids: seq<Node>, isOr: bool, k: Node)
    requires k in kids && HasBranchFilter(k, true)
    ensures Collapse(kids, isOr).Some? && HasBranchFilter(Collapse(kids, isOr).value, true)
  {
    FlattenKeepsScope(kids, isOr, true);
  }

  lemma GroupedKeepsScope(raws: seq<Raw>, raw: Raw, isOr: bool)
    requires Kids(raws + [raw]).Ok? && Finalize(raw).Ok? && Finalize(raw).value.Some?
    requires HasBranchFilter(Finalize(raw).value.value, true)
    ensures var r := Finalize(Grouped(raws + [raw], isOr));
      r.Ok? && r.value.Some? && HasBranchFilter(r.value.value, true)
  {
    hide Finalize, Kids, HasBranchFilter, Collapse;
    var k := Finalize(raw).value.value;
    KidsConcat(raws, [raw]);
    OneKid(raw);
    GroupedFinalizes(raws + [raw], isOr);
    if |raws| > 0 {
      assert k in Kids(raws + [raw]).value;
      CollapseKeepsScope(Kids(raws + [raw]).value, isOr, k);
    } else {
      assert raws + [raw] == [raw];
    }
  }

  /** Every accepted search with a branch opts out of the default branch. */
  lemma AppendedIsScoped(query: string, branch: string)
    requires Tokens(StripLeft(query)).Ok? && branch != "" && !EndsWithBackslash(branch)
    requires TakesAtom(Tokens(StripLeft(query)).value)
    ensures Parse(AppendBranchAtom(query, branch)).Ok?
    ensures HasBranchFilter(Parse(AppendBranchAtom(query, branch)).value, true)
  {
    AtomScopes(branch);
    TermFinalizes(BranchFilter(branch));
    hide StripLeft, AppendBranchAtom, Tokens, Finalize, Kids, EndsWithBackslash, HasBranchFilter, TakesAtom, FreeArms,
      JoinsArm, Grown;
    var free, last := AppendedParse(query, branch);
    var grown := Grouped(last + [Leaf(branch)], false);
    FinalizesExactlyWhen(free, last, branch);
    KidsConcat(last, [Leaf(branch)]);
    OneKid(Leaf(branch));
    GroupedFinalizes(last + [Leaf(branch)], false);
    OneKid(grown);
    KidsConcat(free, [grown]);
    GroupedKeepsScope(last, Leaf(branch), false);
    GroupedKeepsScope(free, grown, true);
  }

  lemma AtomScopes(branch: string)
    ensures HasBranchFilter(BranchFilter(branch), true)
  {
  }

  /**
   A row off the branch still matches the compiled search exactly when an arm that the
   atom does not join matches it; without such an arm, none does.
   */
  lemma OffBranchMatchesExactlyWhen(query: string, branch: string, flag: Option<bool>, atom: Predicate -> Truth)
    requires Tokens(StripLeft(query)).Ok? && branch != "" && !EndsWithBackslash(branch)
    requires TakesAtom(Tokens(StripLeft(query)).value)
    requires atom(OnBranch(branch)) != True
    ensures Parse(AppendBranchAtom(query, branch)).Ok?
    ensures var n, free := Parse(AppendBranchAtom(query, branch)).value, FreeArms(Tokens(StripLeft(query)).value);
      var cs := if flag.Some? then flag.value else GlobalCase(n);
      Eval(CompileQuery(n, flag), atom) == True <==>
        RawValueAll(free, leaf => atom(Compiler.Lower(leaf, cs)), true) == Some(True)
  {
    AppendedIsScoped(query, branch);
    var n, ts := Parse(AppendBranchAtom(query, branch)).value, Tokens(StripLeft(query)).value;
    var cs := if flag.Some? then flag.value else GlobalCase(n);
    var leaf: Node -> Truth := leaf => atom(Compiler.Lower(leaf, cs));
    AtomIsAtom(branch, cs, atom);
    hide *;
    AppendedQueryMeans(query, branch, leaf);
    HeldIsTrueExactlyWhen(ts, branch, leaf);
    ScopedCompiles(n, flag);
    LowerKeepsValue(n, cs, atom);
  }

  lemma AtomIsAtom(branch: string, cs: bool, atom: Predicate -> Truth)
    ensures Compiler.Lower(BranchFilter(branch), cs) == OnBranch(branch)
  {
  }

  lemma ScopedCompiles(n: Node, flag: Option<bool>)
    requires HasBranchFilter(n, true)
    ensures CompileQuery(n, flag) == Compiler.Lower(n, if flag.Some? then flag.value else GlobalCase(n))
  {
  }

  lemma HeldIsTrueExactlyWhen(ts: seq<Token>, branch: string, leaf: Node -> Truth)
    requires TakesAtom(ts) && leaf(BranchFilter(branch)) != True
    ensures HeldValue(ts, branch, leaf) == Some(True) <==> RawValueAll(FreeArms(ts), leaf, true) == Some(True)
  {
    hide RawValueAll, JoinedArm, TakesAtom, FreeArms;
  }
}
