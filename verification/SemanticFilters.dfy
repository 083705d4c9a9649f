/**
 Splitting a semantic query into filter atoms and prose
 (app/query/semantic_filters.py): the span of each field token, the loop that
 collects filters and cuts their spans out, and the pieces of prose that the cuts
 leave, each of which scans by itself.
 */
module SemanticFilters {
  import opened Wrappers
  import opened QueryAst
  import opened Scanner
  import opened ScanLocality
  import opened Lexemes
  import opened PythonText

  datatype Filters = Filters(
    repoPatterns: seq<string>,
    pathPatterns: seq<string>,
    langs: seq<string>,
    branches: seq<string>,
    residual: string)

  datatype SplitError = BadQuery(error: QueryParseError) | UnsupportedAtom(atom: string, position: nat)

  /** The field name behind a kind. */
  function FieldOf(kind: TokenKind): Option<string> {
    match kind
    case REPO => Some("repo")
    case PATH => Some("file")
    case LANG => Some("lang")
    case SYMBOL => Some("sym")
    case BRANCH => Some("branch")
    case COMMIT => Some("commit")
    case _ => None
  }

  /** `FieldOf` is the parser's own table, inverted. */
  lemma FieldOfInvertsTheTable(kind: TokenKind)
    ensures forall field :: FieldOf(kind) == Some(field) <==> field in FIELD_KINDS && FIELD_KINDS[field] == kind
  {
  }

  /** Atoms a semantic query may not contain. */
  function Unsupported(kind: TokenKind): Option<string> {
    match kind
    case SYMBOL => Some("sym:")
    case COMMIT => Some("commit:")
    case CASE => Some("case:")
    case REGEX => Some("regex")
    case NOT => Some("-")
    case _ => None
  }

  // ------------------------------------------------------------------ excision

  type Cut = (nat, nat)

  /** Cuts in order, without overlap, inside the text from `cursor` on. */
  predicate Ascending(cuts: seq<Cut>, cursor: nat, size: nat)
    decreases |cuts|
  {
    if cuts == [] then cursor <= size
    else cursor <= cuts[0].0 < cuts[0].1 && Ascending(cuts[1..], cuts[0].1, size)
  }

  lemma {:induction false} AscendingBounds(cuts: seq<Cut>, cursor: nat, size: nat)
    requires Ascending(cuts, cursor, size)
    ensures cursor <= size && (cuts != [] ==> cuts[0].1 <= size)
    decreases |cuts|
  {
    if cuts != [] {
      AscendingBounds(cuts[1..], cuts[0].1, size);
    }
  }

  /** The text between the cuts. */
  function Pieces(source: string, cuts: seq<Cut>, cursor: nat): (pieces: seq<string>)
    requires Ascending(cuts, cursor, |source|)
    decreases |cuts|
  {
    AscendingBounds(cuts, cursor, |source|);
    if cuts == [] then [source[cursor..]]
    else [source[cursor..cuts[0].0]] + Pieces(source, cuts[1..], cuts[0].1)
  }

  /** The stripped pieces of which something is left. */
  function Stripped(pieces: seq<string>): (r: seq<string>)
    ensures forall p <- r :: p != ""
    decreases |pieces|
  {
    if pieces == [] then []
    else (if Strip(pieces[0]) != "" then [Strip(pieces[0])] else []) + Stripped(pieces[1..])
  }

  function Joined(pieces: seq<string>): string
    decreases |pieces|
  {
    if pieces == [] then "" else pieces[0] + JoinedTail(pieces[1..])
  }

  function JoinedTail(pieces: seq<string>): string
    decreases |pieces|
  {
    if pieces == [] then "" else " " + pieces[0] + JoinedTail(pieces[1..])
  }

  function Excised(source: string, cuts: seq<Cut>): string
    requires Ascending(cuts, 0, |source|)
  {
    Joined(Stripped(Pieces(source, cuts, 0)))
  }

  // ------------------------------------------------------------------ the split

  predicate IsFilter(s: Spanned) {
    FieldOf(s.token.kind).Some?
  }

  function CutsOf(spans: seq<Spanned>): seq<Cut>
    decreases |spans|
  {
    if spans == [] then []
    else (if IsFilter(spans[0]) then [(spans[0].token.position, spans[0].end)] else []) + CutsOf(spans[1..])
  }

  function ValuesOf(spans: seq<Spanned>, kind: TokenKind): seq<string>
    decreases |spans|
  {
    if spans == [] then []
    else (if spans[0].token.kind == kind then [spans[0].token.value] else []) + ValuesOf(spans[1..], kind)
  }

  function FirstUnsupported(spans: seq<Spanned>): Option<SplitError>
    decreases |spans|
  {
    if spans == [] then None
    else
      match Unsupported(spans[0].token.kind)
      case Some(atom) => Some(UnsupportedAtom(atom, spans[0].token.position))
      case None => FirstUnsupported(spans[1..])
  }

  function Split(query: string): Result<Filters, SplitError> {
    match Scan(query, 0)
    case Err(e) => Err(BadQuery(e))
    case Ok(spans) =>
      SpansAscend(query, 0);
      CutsAscend(spans, 0, |query|);
      match FirstUnsupported(spans)
      case Some(e) => Err(e)
      case None => Ok(Filters(ValuesOf(spans, REPO), ValuesOf(spans, PATH), ValuesOf(spans, LANG),
        ValuesOf(spans, BRANCH), Excised(query, CutsOf(spans))))
  }

  // ------------------------------------------------------------------ where tokens stand

  /** Tokens in order, without overlap, inside the text from `cursor` on. */
  predicate SpansAscending(spans: seq<Spanned>, cursor: nat, size: nat)
    decreases |spans|
  {
    if spans == [] then cursor <= size
    else cursor <= spans[0].token.position < spans[0].end && SpansAscending(spans[1..], spans[0].end, size)
  }

  lemma {:induction false} SpansAscend(source: string, from: nat)
    requires from <= |source| && Scan(source[from..], from).Ok?
    ensures SpansAscending(Scan(source[from..], from).value, from, |source|)
    decreases |source| - from
  {
    hide NextLexeme;
    if from < |source| {
      if IsSpace(source[from]) {
        assert source[from..][1..] == source[from + 1..];
        SpansAscend(source, from + 1);
        SpansLater(Scan(source[from + 1..], from + 1).value, from, from + 1, |source|);
      } else {
        var n := NextLexeme(source[from..]).value.length;
        assert source[from..][n..] == source[from + n..];
        SpansAscend(source, from + n);
      }
    }
  }

  lemma SpansLater(spans: seq<Spanned>, cursor: nat, later: nat, size: nat)
    requires SpansAscending(spans, later, size) && cursor <= later
    ensures SpansAscending(spans, cursor, size)
  {
  }

  lemma {:induction false} CutsAscend(spans: seq<Spanned>, cursor: nat, size: nat)
    requires SpansAscending(spans, cursor, size)
    ensures Ascending(CutsOf(spans), cursor, size)
    decreases |spans|
  {
    if spans != [] {
      CutsAscend(spans[1..], spans[0].end, size);
      CutsLater(CutsOf(spans[1..]), cursor, spans[0].end, size);
      if IsFilter(spans[0]) {
        assert CutsOf(spans)[1..] == CutsOf(spans[1..]);
      } else {
        assert [] + CutsOf(spans[1..]) == CutsOf(spans[1..]);
      }
    }
  }

  lemma CutsLater(cuts: seq<Cut>, cursor: nat, later: nat, size: nat)
    requires Ascending(cuts, later, size) && cursor <= later
    ensures Ascending(cuts, cursor, size)
  {
  }

  /** A token stands where the scanner read it. */
  predicate StandsAt(source: string, s: Spanned) {
    && s.token.position < s.end <= |source| && !IsSpace(source[s.token.position])
    && NextLexeme(source[s.token.position..]) == Ok(Lexeme(s.token.kind, s.token.value, s.end - s.token.position))
  }

  lemma {:induction false} TokensStand(source: string, from: nat)
    requires from <= |source| && Scan(source[from..], from).Ok?
    ensures forall s <- Scan(source[from..], from).value :: StandsAt(source, s)
    decreases |source| - from
  {
    hide NextLexeme;
    if from < |source| {
      if IsSpace(source[from]) {
        assert source[from..][1..] == source[from + 1..];
        TokensStand(source, from + 1);
      } else {
        var l := NextLexeme(source[from..]).value;
        assert source[from..][l.length..] == source[from + l.length..];
        TokensStand(source, from + l.length);
        assert StandsAt(source, Spanned(Token(l.kind, l.value, from), from + l.length));
      }
    }
  }

  /** The span of a field token, read again from behind its colon. */
  function FieldSpan(query: string, t: Token, field: string): Result<Cut, QueryParseError>
    requires t.position + |field| < |query|
  {
    var colon := t.position + |field|;
    match Moved(ReadFieldValue(query[colon + 1..]), colon + 1)
    case Err(e) => Err(e)
    case Ok((_, end)) => Ok((t.position, end))
  }

  method ReadSpan(query: string, t: Token, field: string) returns (r: Result<Cut, QueryParseError>)
    requires t.position + |field| < |query|
    ensures r == FieldSpan(query, t, field)
  {
    var colon := t.position + |field|;
    var value :- FieldValue(query, colon + 1);
    return Ok((t.position, value.1));
  }

  lemma FieldLexemeOfKind(s: string)
    requires s != "" && !IsSpace(s[0]) && NextLexeme(s).Ok? && FieldOf(NextLexeme(s).value.kind).Some?
    ensures HasField(s) && NextLexeme(s) == FieldLexeme(s)
    ensures s[..PrefixLength(s)] == FieldOf(NextLexeme(s).value.kind).value
  {
    hide ReadLiteral, ReadFieldValue, KnownField, PrefixLength, Lowered;
    FieldOfInvertsTheTable(NextLexeme(s).value.kind);
  }

  /**
   Reading a field token's value again finds exactly the range the scanner
   consumed for it, for bare, quoted and slashed values alike.
   */
  lemma FieldSpanIsExact(query: string, s: Spanned)
    requires Scan(query, 0).Ok? && s in Scan(query, 0).value && IsFilter(s)
    ensures var field := FieldOf(s.token.kind).value;
      && s.token.position + |field| < |query|
      && query[s.token.position..][..|field| + 1] == field + ":"
      && FieldSpan(query, s.token, field) == Ok((s.token.position, s.end))
  {
    assert query[0..] == query;
    TokensStand(query, 0);
    SpanOfStanding(query, s);
  }

  lemma SpanOfStanding(query: string, s: Spanned)
    requires StandsAt(query, s) && IsFilter(s)
    ensures var field := FieldOf(s.token.kind).value;
      && s.token.position + |field| < |query|
      && query[s.token.position..][..|field| + 1] == field + ":"
      && FieldSpan(query, s.token, field) == Ok((s.token.position, s.end))
  {
    hide NextLexeme, FieldOf, FieldLexeme, HasField, PrefixLength, ReadFieldValue, FieldSpan, IsSpace;
    var text := query[s.token.position..];
    assert text[0] == query[s.token.position];
    FieldLexemeOfKind(text);
    var field := FieldOf(s.token.kind).value;
    FieldExtent(text, field);
    SpanFrom(query, s.token, field, text);
  }

  lemma SpanFrom(query: string, t: Token, field: string, text: string)
    requires t.position <= |query| && text == query[t.position..] && |field| < |text|
    requires ReadFieldValue(text[|field| + 1..]).Ok?
    ensures FieldSpan(query, t, field) ==
      Ok((t.position, t.position + |field| + 1 + ReadFieldValue(text[|field| + 1..]).value.1))
  {
    hide ReadFieldValue;
    assert text[|field| + 1..] == query[t.position + |field| + 1..];
  }

  lemma FieldExtent(text: string, field: string)
    requires HasField(text) && text[..PrefixLength(text)] == field && FieldLexeme(text).Ok?
    ensures |field| < |text| && text[..|field| + 1] == field + ":"
    ensures ReadFieldValue(text[|field| + 1..]).Ok?
    ensures FieldLexeme(text).value.length == |field| + 1 + ReadFieldValue(text[|field| + 1..]).value.1
  {
    hide ReadFieldValue, FieldFrom, KnownField, PrefixLength;
    assert text[..|field| + 1] == text[..|field|] + [text[|field|]];
  }

  // ------------------------------------------------------------------ the loops

  method Excise(source: string, cuts: seq<Cut>) returns (residual: string)
    requires Ascending(cuts, 0, |source|)
    ensures residual == Excised(source, cuts)
  {
    var pieces: seq<string> := [];
    var cursor: nat := 0;
    ghost var whole := Pieces(source, cuts, 0);
    for i := 0 to |cuts|
      invariant Ascending(cuts[i..], cursor, |source|)
      invariant whole == pieces + Pieces(source, cuts[i..], cursor)
    {
      assert cuts[i..][0] == cuts[i] && cuts[i..][1..] == cuts[i + 1..];
      AscendingBounds(cuts[i..], cursor, |source|);
      pieces := pieces + [source[cursor..cuts[i].0]];
      cursor := cuts[i].1;
    }
    AscendingBounds(cuts[|cuts|..], cursor, |source|);
    pieces := pieces + [source[cursor..]];
    residual := Joined(Stripped(pieces));
  }

  /** The spans collected so far and what the remaining tokens still add. */
  lemma {:induction false} CutsConcat(a: seq<Spanned>, b: seq<Spanned>)
    ensures CutsOf(a + b) == CutsOf(a) + CutsOf(b)
    decreases |a|
  {
    hide FieldOf;
    if a == [] {
      assert a + b == b;
    } else {
      CutsConcat(a[1..], b);
      assert (a + b)[1..] == a[1..] + b;
      var first := if IsFilter(a[0]) then [(a[0].token.position, a[0].end)] else [];
      assert first + (CutsOf(a[1..]) + CutsOf(b)) == (first + CutsOf(a[1..])) + CutsOf(b);
    }
  }

  lemma ValuesCons(spans: seq<Spanned>, kind: TokenKind)
    requires spans != []
    ensures ValuesOf(spans, kind) ==
      (if spans[0].token.kind == kind then [spans[0].token.value] else []) + ValuesOf(spans[1..], kind)
  {
  }

  lemma {:induction false} ValuesConcat(a: seq<Spanned>, b: seq<Spanned>, kind: TokenKind)
    ensures ValuesOf(a + b, kind) == ValuesOf(a, kind) + ValuesOf(b, kind)
    decreases |a|
  {
    if a == [] {
      assert a + b == b;
    } else {
      ValuesConcat(a[1..], b, kind);
      ValuesCons(a + b, kind);
      ValuesCons(a, kind);
      hide ValuesOf;
      assert (a + b)[1..] == a[1..] + b;
      var first := if a[0].token.kind == kind then [a[0].token.value] else [];
      assert first + (ValuesOf(a[1..], kind) + ValuesOf(b, kind)) == (first + ValuesOf(a[1..], kind)) + ValuesOf(b, kind);
    }
  }

  lemma {:induction false} UnsupportedLater(spans: seq<Spanned>, i: nat)
    requires i < |spans| && FirstUnsupported(spans[..i]) == None
    ensures Unsupported(spans[i].token.kind).Some? ==>
      FirstUnsupported(spans) == Some(UnsupportedAtom(Unsupported(spans[i].token.kind).value, spans[i].token.position))
    ensures Unsupported(spans[i].token.kind).None? ==> FirstUnsupported(spans[..i + 1]) == None
    decreases |spans|
  {
    if i > 0 {
      assert spans[..i][1..] == spans[1..][..i - 1] && spans[..i + 1][1..] == spans[1..][..i];
      UnsupportedLater(spans[1..], i - 1);
    }
  }

  /** What the loop has collected from the first `i` tokens. */
  ghost predicate Collected(spans: seq<Spanned>, i: nat, f: Filters, cuts: seq<Cut>) {
    && i <= |spans| && FirstUnsupported(spans[..i]) == None && cuts == CutsOf(spans[..i])
    && f.repoPatterns == ValuesOf(spans[..i], REPO) && f.pathPatterns == ValuesOf(spans[..i], PATH)
    && f.langs == ValuesOf(spans[..i], LANG) && f.branches == ValuesOf(spans[..i], BRANCH)
  }

  /** Append a filter token's value to its list. */
  function Collect(f: Filters, t: Token): Filters {
    match t.kind
    case REPO => f.(repoPatterns := f.repoPatterns + [t.value])
    case PATH => f.(pathPatterns := f.pathPatterns + [t.value])
    case LANG => f.(langs := f.langs + [t.value])
    case BRANCH => f.(branches := f.branches + [t.value])
    case _ => f
  }

  lemma CollectedMore(spans: seq<Spanned>, i: nat, f: Filters, cuts: seq<Cut>)
    requires i < |spans| && Collected(spans, i, f, cuts) && Unsupported(spans[i].token.kind).None?
    ensures Collected(spans, i + 1, Collect(f, spans[i].token),
      if IsFilter(spans[i]) then cuts + [(spans[i].token.position, spans[i].end)] else cuts)
  {
    hide FirstUnsupported, CutsOf, ValuesOf, FieldOf, Unsupported;
    UnsupportedLater(spans, i);
    var one := [spans[i]];
    assert spans[..i + 1] == spans[..i] + one;
    CutsConcat(spans[..i], one);
    ValuesConcat(spans[..i], one, REPO);
    ValuesConcat(spans[..i], one, PATH);
    ValuesConcat(spans[..i], one, LANG);
    ValuesConcat(spans[..i], one, BRANCH);
    assert one[1..] == [];
    OneSpan(spans[i]);
  }

  lemma OneSpan(s: Spanned)
    ensures CutsOf([s]) == if IsFilter(s) then [(s.token.position, s.end)] else []
    ensures forall kind :: ValuesOf([s], kind) == if s.token.kind == kind then [s.token.value] else []
  {
    assert [s][1..] == [];
  }

  lemma CollectedAll(query: string, spans: seq<Spanned>, f: Filters, cuts: seq<Cut>)
    requires Scan(query, 0) == Ok(spans) && Collected(spans, |spans|, f, cuts)
    ensures Ascending(cuts, 0, |query|) && Split(query) == Ok(f.(residual := Excised(query, cuts)))
  {
    hide Scan, Excised, FirstUnsupported, ValuesOf, CutsOf;
    assert query[0..] == query && spans[..|spans|] == spans;
    SpansAscend(query, 0);
    CutsAscend(spans, 0, |query|);
  }

  method SplitSemanticQuery(query: string) returns (r: Result<Filters, SplitError>)
    ensures r == Split(query)
  {
    hide Scan, Collected, CutsOf, FirstUnsupported, ValuesOf, Split, FieldSpan;
    var scanned := Tokenize(query);
    ghost var scan := Scan(query, 0);
    if scanned.Err? {
      SplitFails(query);
      return Err(BadQuery(scanned.error));
    }
    var tokens := scanned.value;
    ghost var spans := scan.value;
    var f, cuts: seq<Cut> := Filters([], [], [], [], ""), [];
    CollectedNothing(spans);
    for i := 0 to |tokens|
      invariant Collected(spans, i, f, cuts)
    {
      var t := tokens[i];
      var unsupported := Unsupported(t.kind);
      if unsupported.Some? {
        SplitRefuses(query, spans, i, f, cuts);
        return Err(UnsupportedAtom(unsupported.value, t.position));
      }
      CollectedMore(spans, i, f, cuts);
      var field := FieldOf(t.kind);
      if field.Some? {
        FieldSpanIsExact(query, spans[i]);
        var span := ReadSpan(query, t, field.value);
        cuts := cuts + [span.value];
        f := Collect(f, t);
      } else {
        assert Collect(f, t) == f;
      }
    }
    CollectedAll(query, spans, f, cuts);
    var residual := Excise(query, cuts);
    return Ok(f.(residual := residual));
  }

  lemma SplitFails(query: string)
    ensures Tokens(query).Err? ==> Split(query) == Err(BadQuery(Tokens(query).error))
  {
    hide Scan;
  }

  lemma CollectedNothing(spans: seq<Spanned>)
    ensures Collected(spans, 0, Filters([], [], [], [], ""), [])
  {
  }

  lemma SplitRefuses(query: string, spans: seq<Spanned>, i: nat, f: Filters, cuts: seq<Cut>)
    requires Scan(query, 0) == Ok(spans) && i < |spans| && Collected(spans, i, f, cuts)
    requires Unsupported(spans[i].token.kind).Some?
    ensures Split(query) == Err(UnsupportedAtom(Unsupported(spans[i].token.kind).value, spans[i].token.position))
  {
    hide Scan, Excised, FirstUnsupported, ValuesOf, CutsOf;
    assert query[0..] == query;
    UnsupportedLater(spans, i);
  }

  // ------------------------------------------------------------------ what the split promises

  lemma {:induction false} ValuesExactly(spans: seq<Spanned>, kind: TokenKind, v: string)
    ensures v in ValuesOf(spans, kind) <==> exists s <- spans :: s.token.kind == kind && s.token.value == v
    decreases |spans|
  {
    if spans != [] {
      ValuesExactly(spans[1..], kind, v);
      assert spans == [spans[0]] + spans[1..];
    }
  }

  lemma {:induction false} UnsupportedExactlyWhen(spans: seq<Spanned>)
    ensures FirstUnsupported(spans).Some? <==> exists s <- spans :: s.token.kind in {SYMBOL, COMMIT, CASE, REGEX, NOT}
    decreases |spans|
  {
    if spans != [] {
      UnsupportedExactlyWhen(spans[1..]);
      assert spans == [spans[0]] + spans[1..];
    }
  }

  /** An atom that a semantic query may not contain, as an error spells it. */
  predicate Refuses(t: Token, e: SplitError) {
    match t.kind
    case SYMBOL => e == UnsupportedAtom("sym:", t.position)
    case COMMIT => e == UnsupportedAtom("commit:", t.position)
    case CASE => e == UnsupportedAtom("case:", t.position)
    case REGEX => e == UnsupportedAtom("regex", t.position)
    case NOT => e == UnsupportedAtom("-", t.position)
    case _ => false
  }

  /** The error names the first unsupported atom, and none stands before it. */
  lemma {:induction false} RefusesTheFirst(spans: seq<Spanned>) returns (i: nat)
    requires FirstUnsupported(spans).Some?
    ensures i < |spans| && Refuses(spans[i].token, FirstUnsupported(spans).value)
    ensures FirstUnsupported(spans[..i]) == None
    decreases |spans|
  {
    i := 0;
    if Unsupported(spans[0].token.kind).None? {
      var k := RefusesTheFirst(spans[1..]);
      i := k + 1;
      assert spans[..i][1..] == spans[1..][..k];
    }
  }

  /**
   A semantic query is split exactly if it scans and holds no `sym:`, `commit:`,
   `case:`, regex or negation; and each list of filters has exactly the values of its
   own field's atoms.
   */
  lemma SplitsExactlyWhen(query: string)
    ensures Split(query).Ok? <==>
      Scan(query, 0).Ok? && forall s <- Scan(query, 0).value :: s.token.kind !in {SYMBOL, COMMIT, CASE, REGEX, NOT}
    ensures Split(query).Ok? ==> forall v: string ::
      && (v in Split(query).value.repoPatterns <==> HasAtom(query, REPO, v))
      && (v in Split(query).value.pathPatterns <==> HasAtom(query, PATH, v))
      && (v in Split(query).value.langs <==> HasAtom(query, LANG, v))
      && (v in Split(query).value.branches <==> HasAtom(query, BRANCH, v))
  {
    hide Scan, Excised, ValuesOf, FirstUnsupported, CutsOf;
    if Scan(query, 0).Ok? {
      var spans := Scan(query, 0).value;
      UnsupportedExactlyWhen(spans);
      forall v: string, kind: TokenKind
        ensures v in ValuesOf(spans, kind) <==> HasAtom(query, kind, v)
      {
        ValuesExactly(spans, kind, v);
      }
    }
  }

  /** A query that scans and is refused is refused for its first unsupported atom, by name and column. */
  lemma SplitNamesTheFirst(query: string)
    requires Scan(query, 0).Ok? && Split(query).Err?
    ensures var spans := Scan(query, 0).value;
      exists i | 0 <= i < |spans| ::
        && Refuses(spans[i].token, Split(query).error)
        && forall s <- spans[..i] :: s.token.kind !in {SYMBOL, COMMIT, CASE, REGEX, NOT}
  {
    hide Scan, Excised, ValuesOf, FirstUnsupported, CutsOf, Refuses;
    var i := RefusesTheFirst(Scan(query, 0).value);
    UnsupportedExactlyWhen(Scan(query, 0).value[..i]);
  }

  /** An atom of this kind and value is in the query. */
  predicate HasAtom(query: string, kind: TokenKind, v: string) {
    Scan(query, 0).Ok? && exists s <- Scan(query, 0).value :: s.token.kind == kind && s.token.value == v
  }

  // ------------------------------------------------------------------ prose

  /** A stretch of prose between filters, and the tokens in it. */
  datatype Segment = Segment(text: string, shape: seq<Shape>)

  function Segments(s: string): (segments: seq<Segment>)
    ensures segments != []
    decreases |s|
  {
    if s == "" then [Segment("", [])]
    else if IsSpace(s[0]) then Widen(s[..1], [], Segments(s[1..]))
    else
      match NextLexeme(s)
      case Err(_) => [Segment("", [])]
      case Ok(l) =>
        if FieldOf(l.kind).Some? then [Segment("", [])] + Segments(s[l.length..])
        else Widen(s[..l.length], [(l.kind, l.value)], Segments(s[l.length..]))
  }

  /** Put text and its tokens in front of the first segment. */
  function Widen(text: string, shape: seq<Shape>, segments: seq<Segment>): (r: seq<Segment>)
    requires segments != []
    ensures |r| == |segments| && r[1..] == segments[1..]
  {
    [Segment(text + segments[0].text, shape + segments[0].shape)] + segments[1..]
  }

  function Texts(segments: seq<Segment>): (texts: seq<string>)
    decreases |segments|
  {
    if segments == [] then [] else [segments[0].text] + Texts(segments[1..])
  }

  function ShapeOfAll(segments: seq<Segment>): seq<Shape>
    decreases |segments|
  {
    if segments == [] then [] else segments[0].shape + ShapeOfAll(segments[1..])
  }

  /** The tokens that are no filters. */
  function Prose(shapes: seq<Shape>): seq<Shape>
    decreases |shapes|
  {
    if shapes == [] then []
    else (if FieldOf(shapes[0].0).None? then [shapes[0]] else []) + Prose(shapes[1..])
  }

  lemma WidenTwice(a: string, x: seq<Shape>, b: string, y: seq<Shape>, segments: seq<Segment>)
    requires segments != []
    ensures Widen(a, x, Widen(b, y, segments)) == Widen(a + b, x + y, segments)
  {
    assert a + (b + segments[0].text) == (a + b) + segments[0].text;
    assert x + (y + segments[0].shape) == (x + y) + segments[0].shape;
  }

  lemma TextsOfWiden(text: string, shape: seq<Shape>, segments: seq<Segment>)
    requires segments != []
    ensures Texts(Widen(text, shape, segments)) == [text + segments[0].text] + Texts(segments[1..])
  {
  }

  /** Cutting at the filter spans leaves exactly the segments. */
  lemma {:induction false} PiecesAreSegments(query: string, from: nat, cursor: nat)
    requires cursor <= from <= |query| && Scan(query[from..], from).Ok?
    ensures var cuts := CutsOf(Scan(query[from..], from).value);
      Ascending(cuts, cursor, |query|)
      && Pieces(query, cuts, cursor) == Texts(Widen(query[cursor..from], [], Segments(query[from..])))
    decreases |query| - from
  {
    hide NextLexeme, FieldOf, Pieces, Texts, Widen, Ascending, SpansAscending;
    var s := query[from..];
    SpansAscend(query, from);
    SpansLater(Scan(s, from).value, cursor, from, |query|);
    CutsAscend(Scan(s, from).value, cursor, |query|);
    if from == |query| {
      PiecesAtEnd(query, cursor);
    } else if IsSpace(s[0]) {
      assert s[1..] == query[from + 1..];
      PiecesAreSegments(query, from + 1, cursor);
      PiecesAtSpace(query, cursor, from, Segments(s[1..]));
    } else {
      var l := NextLexeme(s).value;
      var next := from + l.length;
      assert s[l.length..] == query[next..];
      PiecesAreSegments(query, next, if FieldOf(l.kind).Some? then next else cursor);
      var first := Spanned(Token(l.kind, l.value, from), next);
      var more := Scan(query[next..], next).value;
      assert Scan(s, from).value == [first] + more;
      if FieldOf(l.kind).Some? {
        PiecesAtFilter(query, cursor, first, CutsOf(more), Segments(query[next..]));
      } else {
        assert CutsOf([first] + more) == CutsOf(more);
        PiecesAtProse(query, cursor, from, next, (l.kind, l.value), Segments(query[next..]));
      }
    }
  }

  lemma PiecesAtSpace(query: string, cursor: nat, from: nat, segments: seq<Segment>)
    requires cursor <= from < |query| && segments != []
    ensures Texts(Widen(query[cursor..from], [], Widen(query[from..][..1], [], segments)))
      == Texts(Widen(query[cursor..from + 1], [], segments))
  {
    hide Texts, Widen;
    WidenTwice(query[cursor..from], [], query[from..][..1], [], segments);
    assert query[cursor..from] + query[from..][..1] == query[cursor..from + 1];
    var nothing: seq<Shape> := [];
    assert nothing + nothing == nothing;
  }

  lemma PiecesAtEnd(query: string, cursor: nat)
    requires cursor <= |query|
    ensures Ascending([], cursor, |query|)
    ensures Pieces(query, [], cursor) == Texts(Widen(query[cursor..|query|], [], [Segment("", [])]))
  {
    TextsOfWiden(query[cursor..|query|], [], [Segment("", [])]);
    assert query[cursor..|query|] + "" == query[cursor..] && [Segment("", [])][1..] == [];
  }

  lemma PiecesAtFilter(query: string, cursor: nat, first: Spanned, cuts: seq<Cut>, segments: seq<Segment>)
    requires cursor <= first.token.position < first.end <= |query|
    requires Ascending(cuts, first.end, |query|) && segments != []
    requires Pieces(query, cuts, first.end) == Texts(Widen(query[first.end..first.end], [], segments))
    ensures var all := [(first.token.position, first.end)] + cuts;
      Ascending(all, cursor, |query|) && Pieces(query, all, cursor)
        == Texts(Widen(query[cursor..first.token.position], [], [Segment("", [])] + segments))
  {
    WidenNothing(segments);
    assert ([(first.token.position, first.end)] + cuts)[1..] == cuts;
    TextsOfWiden(query[cursor..first.token.position], [], [Segment("", [])] + segments);
    assert ([Segment("", [])] + segments)[1..] == segments;
    assert query[cursor..first.token.position] + "" == query[cursor..first.token.position];
  }

  lemma PiecesAtProse(query: string, cursor: nat, from: nat, next: nat, shape: Shape, segments: seq<Segment>)
    requires cursor <= from <= next <= |query| && segments != []
    ensures Texts(Widen(query[cursor..from], [], Widen(query[from..][..next - from], [shape], segments)))
      == Texts(Widen(query[cursor..next], [], segments))
  {
    WidenTwice(query[cursor..from], [], query[from..][..next - from], [shape], segments);
    assert query[cursor..from] + query[from..][..next - from] == query[cursor..next];
    TextsOfWiden(query[cursor..next], [] + [shape], segments);
    TextsOfWiden(query[cursor..next], [], segments);
  }

  lemma WidenNothing(segments: seq<Segment>)
    requires segments != []
    ensures Widen("", [], segments) == segments
  {
    assert "" + segments[0].text == segments[0].text && [] + segments[0].shape == segments[0].shape;
    assert segments == [segments[0]] + segments[1..];
  }

  // ------------------------------------------------------------------ each piece scans by itself

  predicate Scans(g: Segment) {
    Shapes(g.text) == Some(g.shape)
  }

  predicate AllScan(segments: seq<Segment>) {
    forall g <- segments :: Scans(g)
  }

  lemma WidenKeeps(text: string, shape: seq<Shape>, segments: seq<Segment>)
    requires segments != [] && AllScan(segments) && Shapes(text + segments[0].text) == Some(shape + segments[0].shape)
    ensures AllScan(Widen(text, shape, segments))
    ensures ShapeOfAll(Widen(text, shape, segments)) == shape + ShapeOfAll(segments)
  {
    hide Shapes;
    assert forall g <- segments[1..] :: g in segments;
    assert shape + segments[0].shape + ShapeOfAll(segments[1..]) == shape + (segments[0].shape + ShapeOfAll(segments[1..]));
  }

  lemma SpaceScans(c: char, g: Segment)
    requires IsSpace(c) && Scans(g)
    ensures Shapes([c] + g.text) == Some([] + g.shape)
  {
    assert ([c] + g.text)[1..] == g.text && [] + g.shape == g.shape;
  }

  lemma ProseLexemeScans(s: string, g: Segment)
    requires s != "" && !IsSpace(s[0]) && NextLexeme(s).Ok? && NextLexeme(s).value.kind != NOT
    requires g.text <= s[NextLexeme(s).value.length..] && Scans(g)
    ensures var l := NextLexeme(s).value;
      s[..l.length] + g.text <= s && Shapes(s[..l.length] + g.text) == Some([(l.kind, l.value)] + g.shape)
  {
    var l := NextLexeme(s).value;
    var text := s[..l.length] + g.text;
    assert s == s[..l.length] + s[l.length..];
    LexemeIsLocal(s, g.text);
    hide NextLexeme;
    assert text[0] == s[0] && text[l.length..] == g.text;
  }

  lemma SegmentsAtSpace(s: string)
    requires s != "" && IsSpace(s[0])
    requires var rest := Segments(s[1..]); rest[0].text <= s[1..] && AllScan(rest)
    ensures Segments(s)[0].text <= s && AllScan(Segments(s))
    ensures ShapeOfAll(Segments(s)) == ShapeOfAll(Segments(s[1..]))
  {
    var rest := Segments(s[1..]);
    hide Shapes;
    SpaceScans(s[0], rest[0]);
    assert s[..1] == [s[0]] && s == s[..1] + s[1..];
    WidenKeeps(s[..1], [], rest);
  }

  lemma SegmentsAtLexeme(s: string, l: Lexeme)
    requires s != "" && !IsSpace(s[0]) && NextLexeme(s) == Ok(l) && l.kind != NOT
    requires var rest := Segments(s[l.length..]); rest[0].text <= s[l.length..] && AllScan(rest)
    ensures Segments(s)[0].text <= s && AllScan(Segments(s))
    ensures ShapeOfAll(Segments(s)) ==
      (if FieldOf(l.kind).None? then [(l.kind, l.value)] else []) + ShapeOfAll(Segments(s[l.length..]))
  {
    var rest := Segments(s[l.length..]);
    hide NextLexeme, FieldOf;
    if FieldOf(l.kind).Some? {
      assert Scans(Segment("", []));
      assert Segments(s)[1..] == rest;
    } else {
      hide Shapes;
      ProseLexemeScans(s, rest[0]);
      WidenKeeps(s[..l.length], [(l.kind, l.value)], rest);
    }
  }

  /** Each segment is a text of its own; together they have the prose tokens, in order. */
  lemma {:induction false} SegmentsScan(s: string)
    requires Shapes(s).Some? && forall x <- Shapes(s).value :: x.0 != NOT
    ensures Segments(s)[0].text <= s && AllScan(Segments(s))
    ensures ShapeOfAll(Segments(s)) == Prose(Shapes(s).value)
    decreases |s|
  {
    hide NextLexeme, FieldOf, Segments, AllScan;
    if s == "" {
      NoSegments();
    } else if IsSpace(s[0]) {
      SegmentsScan(s[1..]);
      SegmentsAtSpace(s);
    } else {
      var l := NextLexeme(s).value;
      var rest := Shapes(s[l.length..]).value;
      assert Shapes(s).value == [(l.kind, l.value)] + rest;
      assert Shapes(s).value[0] == (l.kind, l.value) && Shapes(s).value[1..] == rest;
      SegmentsScan(s[l.length..]);
      SegmentsAtLexeme(s, l);
    }
  }

  lemma NoSegments()
    ensures Segments("")[0].text <= "" && AllScan(Segments("")) && ShapeOfAll(Segments("")) == []
  {
    assert Segments("") == [Segment("", [])];
  }
}
