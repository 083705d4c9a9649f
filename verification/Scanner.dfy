/** The hand-written scanner of the query language (app/query/parser.py). */
module Scanner {
  import opened Wrappers
  import opened QueryAst

  datatype TokenKind =
    | LPAREN | RPAREN | OR | NOT | SUBSTRING | REGEX
    | REPO | PATH | LANG | SYMBOL | BRANCH | COMMIT | CASE

  datatype Token = Token(kind: TokenKind, value: string, position: nat)

  const SUPPORTED: set<string> := {"repo", "file", "lang", "sym", "case", "branch", "commit"}
  const RESERVED: set<string> := {"content", "r", "f", "l", "b", "c", "s"}
  const FIELD_KINDS: map<string, TokenKind> :=
    map["repo" := REPO, "file" := PATH, "lang" := LANG, "sym" := SYMBOL, "branch" := BRANCH, "commit" := COMMIT]

  predicate IsSpace(c: char) {
    c == ' ' || c == '\t' || c == '\n'
  }

  predicate IsStop(c: char) {
    IsSpace(c) || c == '(' || c == ')'
  }

  predicate IsLower(c: char) {
    'a' <= c <= 'z'
  }

  function Lower(c: char): char {
    if 'A' <= c <= 'Z' then (c as int + 32) as char else c
  }

  function Lowered(s: string): (r: string)
    ensures |r| == |s|
    decreases |s|
  {
    if s == "" then "" else [Lower(s[0])] + Lowered(s[1..])
  }

  predicate IsHex(c: char) {
    '0' <= c <= '9' || 'a' <= c <= 'f'
  }

  /** A git object name: hex only, abbreviated to no less than 7 characters, at most 40. */
  predicate IsCommitHash(s: string) {
    7 <= |s| <= 40 && forall c <- s :: IsHex(c)
  }

  // ------------------------------------------------------------------ one lexeme

  /**
   The body of a delimited literal and the number of characters up to and with
   its closing delimiter. A backslash before the delimiter stands for the
   delimiter; every other character stands for itself.
   */
  function ReadBody(s: string, delimiter: char): (r: Option<(string, nat)>)
    ensures r.Some? ==> 1 <= r.value.1 <= |s| && s[r.value.1 - 1] == delimiter
    decreases |s|
  {
    if s == "" then None
    else if |s| >= 2 && s[0] == '\\' && s[1] == delimiter then
      match ReadBody(s[2..], delimiter)
      case None => None
      case Some((body, n)) => Some(([delimiter] + body, n + 2))
    else if s[0] == delimiter then Some(("", 1))
    else
      match ReadBody(s[1..], delimiter)
      case None => None
      case Some((body, n)) => Some(([s[0]] + body, n + 1))
  }

  function BareLength(s: string): (n: nat)
    ensures n <= |s|
    ensures forall i | 0 <= i < n :: !IsStop(s[i])
    ensures n < |s| ==> IsStop(s[n])
    decreases |s|
  {
    if s == "" || IsStop(s[0]) then 0 else 1 + BareLength(s[1..])
  }

  function PrefixLength(s: string): (n: nat)
    ensures n <= |s|
    ensures forall i | 0 <= i < n :: IsLower(s[i])
    ensures n < |s| ==> !IsLower(s[n])
    decreases |s|
  {
    if s == "" || !IsLower(s[0]) then 0 else 1 + PrefixLength(s[1..])
  }

  datatype LexError = LexError(message: string, offset: nat)

  /** A lexeme at the head of the remaining text: its token and its extent. */
  datatype Lexeme = Lexeme(kind: TokenKind, value: string, length: nat)

  function ReadLiteral(s: string, delimiter: char, message: string): (r: Result<(string, nat), LexError>)
    requires s != ""
    ensures r.Ok? ==> 2 <= r.value.1 <= |s| && s[r.value.1 - 1] == delimiter
  {
    match ReadBody(s[1..], delimiter)
    case None => Err(LexError(message, 0))
    case Some((body, n)) => Ok((body, n + 1))
  }

  const BAD_REGEX := "unterminated regex literal"
  const BAD_QUOTE := "unterminated quoted string"

  /** A field's value: quoted, between slashes, or bare up to a stop character. */
  function ReadFieldValue(s: string): (r: Result<(string, nat), LexError>)
    ensures r.Ok? ==> r.value.1 <= |s|
  {
    if s != "" && s[0] == '"' then ReadLiteral(s, '"', BAD_QUOTE)
    else if s != "" && s[0] == '/' then ReadLiteral(s, '/', BAD_REGEX)
    else Ok((s[..BareLength(s)], BareLength(s)))
  }

  /** The token of a recognized field, or why it is refused. */
  function EmitField(field: string, value: string): (r: Result<(TokenKind, string), string>)
    ensures r.Ok? ==> field in SUPPORTED - RESERVED && value != ""
    ensures r.Ok? && r.value.0 != CASE ==> field in FIELD_KINDS && r.value.0 == FIELD_KINDS[field]
    ensures r.Ok? && r.value.0 == COMMIT ==> IsCommitHash(r.value.1)
  {
    if field in RESERVED then Err("reserved field is not supported in V1")
    else if value == "" then Err("empty value for field")
    else if field == "case" then
      if value == "yes" || value == "no" then Ok((CASE, value)) else Err("case: expects 'yes' or 'no'")
    else if field == "commit" then
      if IsCommitHash(Lowered(value)) then Ok((COMMIT, Lowered(value)))
      else Err("commit: expects a hex git hash of 7-40 chars")
    else if field in FIELD_KINDS then Ok((FIELD_KINDS[field], value))
    else Err("unknown field")
  }

  /** Does the text start with a known field name and a colon? */
  predicate HasField(s: string) {
    var k := PrefixLength(s);
    0 < k < |s| && s[k] == ':' && KnownField(s[..k])
  }

  predicate KnownField(field: string) {
    field in SUPPORTED || field in RESERVED
  }

  /** A field of name `field`, from its value and the value's extent. */
  function FieldFrom(field: string, value: Result<(string, nat), LexError>): (r: Result<Lexeme, LexError>)
    ensures r.Ok? ==> value.Ok? && r.value.length == |field| + 1 + value.value.1
  {
    match value
    case Err(e) => Err(LexError(e.message, |field| + 1 + e.offset))
    case Ok((text, n)) =>
      match EmitField(field, text)
      case Err(message) => Err(LexError(message, 0))
      case Ok((kind, v)) => Ok(Lexeme(kind, v, |field| + 1 + n))
  }

  function FieldLexeme(s: string): (r: Result<Lexeme, LexError>)
    requires PrefixLength(s) < |s|
    ensures r.Ok? ==> PrefixLength(s) < r.value.length <= |s|
  {
    var k := PrefixLength(s);
    FieldFrom(s[..k], ReadFieldValue(s[k + 1..]))
  }

  function BareLexeme(s: string): Lexeme {
    var word := s[..BareLength(s)];
    Lexeme(if Lowered(word) == "or" then OR else SUBSTRING, word, |word|)
  }

  /** A leading minus negates only when a primary can follow it. */
  predicate Negates(s: string) {
    |s| >= 2 && s[0] == '-' && !IsSpace(s[1]) && s[1] != ')'
  }

  function NextLexeme(s: string): (r: Result<Lexeme, LexError>)
    requires s != "" && !IsSpace(s[0])
    ensures r.Ok? ==> 1 <= r.value.length <= |s|
  {
    if s[0] == '(' then Ok(Lexeme(LPAREN, "(", 1))
    else if s[0] == ')' then Ok(Lexeme(RPAREN, ")", 1))
    else if s[0] == '/' then
      match ReadLiteral(s, '/', BAD_REGEX) case Err(e) => Err(e) case Ok((body, n)) => Ok(Lexeme(REGEX, body, n))
    else if s[0] == '"' then
      match ReadLiteral(s, '"', BAD_QUOTE) case Err(e) => Err(e) case Ok((body, n)) => Ok(Lexeme(SUBSTRING, body, n))
    else if Negates(s) then Ok(Lexeme(NOT, "-", 1))
    else if HasField(s) then FieldLexeme(s)
    else Ok(BareLexeme(s))
  }

  // ------------------------------------------------------------------ the whole text

  /** A token with the column right behind the text it was read from. */
  datatype Spanned = Spanned(token: Token, end: nat)

  /** The tokens of the remaining text, which starts at column `position`. */
  function Scan(s: string, position: nat): Result<seq<Spanned>, QueryParseError>
    decreases |s|
  {
    if s == "" then Ok([])
    else if IsSpace(s[0]) then Scan(s[1..], position + 1)
    else
      match NextLexeme(s)
      case Err(e) => Err(QueryParseError(e.message, position + e.offset))
      case Ok(l) =>
        Following([Spanned(Token(l.kind, l.value, position), position + l.length)],
          Scan(s[l.length..], position + l.length))
  }

  /** The rest of the tokens, behind those already read. */
  function Following(spans: seq<Spanned>, rest: Result<seq<Spanned>, QueryParseError>): Result<seq<Spanned>, QueryParseError> {
    match rest case Err(e) => Err(e) case Ok(more) => Ok(spans + more)
  }

  function TokensOf(spans: seq<Spanned>): (tokens: seq<Token>)
    ensures |tokens| == |spans|
  {
    seq(|spans|, i requires 0 <= i < |spans| => spans[i].token)
  }

  function Tokens(query: string): Result<seq<Token>, QueryParseError> {
    var spans :- Scan(query, 0);
    Ok(TokensOf(spans))
  }

  // ------------------------------------------------------------------ the scanner's loops

  /** The rest of a body, behind characters already read. */
  function Behind(buf: string, read: nat, rest: Option<(string, nat)>): Option<(string, nat)> {
    match rest case None => None case Some((body, n)) => Some((buf + body, read + n))
  }

  lemma BehindNothing(rest: Option<(string, nat)>)
    ensures Behind("", 0, rest) == rest
  {
    assert rest.Some? ==> "" + rest.value.0 == rest.value.0;
  }

  lemma BehindMore(buf: string, read: nat, more: string, n: nat, rest: Option<(string, nat)>)
    ensures Behind(buf, read, Behind(more, n, rest)) == Behind(buf + more, read + n, rest)
  {
    assert rest.Some? ==> buf + (more + rest.value.0) == (buf + more) + rest.value.0;
  }

  predicate Escaped(source: string, i: nat, delimiter: char) {
    i + 1 < |source| && source[i] == '\\' && source[i + 1] == delimiter
  }

  lemma ReadBodyAt(source: string, i: nat, delimiter: char)
    requires i < |source|
    ensures ReadBody(source[i..], delimiter) ==
      if Escaped(source, i, delimiter) then Behind([delimiter], 2, ReadBody(source[i + 2..], delimiter))
      else if source[i] == delimiter then Some(("", 1))
      else Behind([source[i]], 1, ReadBody(source[i + 1..], delimiter))
  {
    assert source[i..][1..] == source[i + 1..];
    if Escaped(source, i, delimiter) {
      assert source[i..][2..] == source[i + 2..];
    }
  }

  /** Read a literal whose opening delimiter is at `start`: its body and the index behind it. */
  method ReadDelimited(source: string, start: nat, delimiter: char, message: string)
    returns (r: Result<(string, nat), QueryParseError>)
    requires start < |source| && delimiter != '\\'
    ensures r == match ReadLiteral(source[start..], delimiter, message)
      case Err(e) => Err(QueryParseError(message, start))
      case Ok((body, n)) => Ok((body, start + n))
  {
    var body := ReadBodyFrom(source, start + 1, delimiter);
    assert source[start..][1..] == source[start + 1..];
    match body
    case None => return Err(QueryParseError(message, start));
    case Some((text, n)) => return Ok((text, start + 1 + n));
  }

  method ReadBodyFrom(source: string, start: nat, delimiter: char) returns (r: Option<(string, nat)>)
    requires start <= |source| && delimiter != '\\'
    ensures r == BodyFrom(source, start, delimiter)
  {
    hide BodyFrom, Behind;
    var i, buf := start, "";
    BehindNothing(BodyFrom(source, start, delimiter));
    while i < |source|
      invariant start <= i <= |source|
      invariant BodyFrom(source, start, delimiter) == Behind(buf, i - start, BodyFrom(source, i, delimiter))
    {
      BodyStep(source, i, delimiter, buf, i - start);
      if Escaped(source, i, delimiter) {
        buf := buf + [delimiter];
        i := i + 2;
      } else if source[i] == delimiter {
        return Some((buf, i - start + 1));
      } else {
        buf := buf + [source[i]];
        i := i + 1;
      }
    }
    NoBody(source, delimiter, buf, i - start);
    return None;
  }

  /** The body that starts at column `i`, its extent counted from there. */
  function BodyFrom(source: string, i: nat, delimiter: char): Option<(string, nat)>
    requires i <= |source|
  {
    ReadBody(source[i..], delimiter)
  }

  lemma NoBody(source: string, delimiter: char, buf: string, read: nat)
    ensures Behind(buf, read, BodyFrom(source, |source|, delimiter)) == None
  {
  }

  /** One turn of the loop: an escape, the closing delimiter, or a character that stands for itself. */
  lemma BodyStep(source: string, i: nat, delimiter: char, buf: string, read: nat)
    requires i < |source| && delimiter != '\\'
    ensures Behind(buf, read, BodyFrom(source, i, delimiter)) ==
      if Escaped(source, i, delimiter) then Behind(buf + [delimiter], read + 2, BodyFrom(source, i + 2, delimiter))
      else if source[i] == delimiter then Some((buf, read + 1))
      else Behind(buf + [source[i]], read + 1, BodyFrom(source, i + 1, delimiter))
  {
    hide ReadBody;
    ReadBodyAt(source, i, delimiter);
    if Escaped(source, i, delimiter) {
      BehindMore(buf, read, [delimiter], 2, BodyFrom(source, i + 2, delimiter));
    } else if source[i] == delimiter {
      assert buf + "" == buf;
    } else {
      BehindMore(buf, read, [source[i]], 1, BodyFrom(source, i + 1, delimiter));
    }
  }

  /** The end of the bare word that starts at `start`. */
  method BareEnd(source: string, start: nat) returns (end: nat)
    requires start <= |source|
    ensures end == start + BareLength(source[start..])
  {
    end := start;
    while end < |source| && !IsStop(source[end])
      invariant start <= end <= |source|
      invariant start + BareLength(source[start..]) == end + BareLength(source[end..])
    {
      assert source[end..][1..] == source[end + 1..];
      end := end + 1;
    }
  }

  method PrefixEnd(source: string, start: nat) returns (end: nat)
    requires start <= |source|
    ensures end == start + PrefixLength(source[start..])
  {
    end := start;
    while end < |source| && IsLower(source[end])
      invariant start <= end <= |source|
      invariant start + PrefixLength(source[start..]) == end + PrefixLength(source[end..])
    {
      assert source[end..][1..] == source[end + 1..];
      end := end + 1;
    }
  }

  /** The value of a field that starts at `start`, and the index behind it. */
  method FieldValue(source: string, start: nat) returns (r: Result<(string, nat), QueryParseError>)
    requires start <= |source|
    ensures r == Moved(ReadFieldValue(source[start..]), start)
  {
    if start < |source| && source[start] == '"' {
      r := ReadDelimited(source, start, '"', BAD_QUOTE);
    } else if start < |source| && source[start] == '/' {
      r := ReadDelimited(source, start, '/', BAD_REGEX);
    } else {
      var end := BareEnd(source, start);
      assert source[start..][..end - start] == source[start..end];
      r := Ok((source[start..end], end));
    }
  }

  /** Scan one lexeme at `i`: its token and the index behind it. */
  method ScanToken(query: string, i: nat) returns (r: Result<Spanned, QueryParseError>)
    requires i < |query| && !IsSpace(query[i])
    ensures r == Placed(NextLexeme(query[i..]), i)
  {
    var c := query[i];
    if c == '(' {
      return Ok(Spanned(Token(LPAREN, "(", i), i + 1));
    }
    if c == ')' {
      return Ok(Spanned(Token(RPAREN, ")", i), i + 1));
    }
    if c == '/' {
      var body :- ReadDelimited(query, i, '/', BAD_REGEX);
      return Ok(Spanned(Token(REGEX, body.0, i), body.1));
    }
    if c == '"' {
      var body :- ReadDelimited(query, i, '"', BAD_QUOTE);
      return Ok(Spanned(Token(SUBSTRING, body.0, i), body.1));
    }
    if c == '-' && i + 1 < |query| && !IsSpace(query[i + 1]) && query[i + 1] != ')' {
      return Ok(Spanned(Token(NOT, "-", i), i + 1));
    }
    r := ScanWord(query, i);
  }

  /** A field if the word starts with a known name and a colon, and otherwise a bare word. */
  method ScanWord(query: string, i: nat) returns (r: Result<Spanned, QueryParseError>)
    requires i < |query| && !IsStop(query[i])
    ensures r == Placed(if HasField(query[i..]) then FieldLexeme(query[i..]) else Ok(BareLexeme(query[i..])), i)
  {
    var k, found := FieldPrefix(query, i);
    if found {
      r := ScanField(query, i, k);
      return;
    }
    var j := BareEnd(query, i);
    var lexeme := query[i..j];
    assert lexeme == query[i..][..j - i];
    return Ok(Spanned(Token(if Lowered(lexeme) == "or" then OR else SUBSTRING, lexeme, i), j));
  }

  method FieldPrefix(query: string, i: nat) returns (k: nat, found: bool)
    requires i < |query|
    ensures k == i + PrefixLength(query[i..]) && found == HasField(query[i..])
  {
    k := PrefixEnd(query, i);
    assert query[i..k] == query[i..][..k - i];
    found := k > i && k < |query| && query[k] == ':' && KnownField(query[i..k]);
  }

  method ScanField(query: string, i: nat, k: nat) returns (r: Result<Spanned, QueryParseError>)
    requires i <= k < |query| && k == i + PrefixLength(query[i..])
    ensures r == Placed(FieldLexeme(query[i..]), i)
  {
    hide EmitField, ReadFieldValue;
    assert query[i..][k - i + 1..] == query[k + 1..];
    assert query[i..k] == query[i..][..k - i];
    var value := FieldValue(query, k + 1);
    EmittedIsPlaced(query[i..k], ReadFieldValue(query[k + 1..]), i);
    r := Emitted(query[i..k], value, i);
  }

  lemma EmittedIsPlaced(field: string, value: Result<(string, nat), LexError>, i: nat)
    ensures Emitted(field, Moved(value, i + |field| + 1), i) == Placed(FieldFrom(field, value), i)
  {
  }

  /** A value read at column `start`. */
  function Moved(value: Result<(string, nat), LexError>, start: nat): Result<(string, nat), QueryParseError> {
    match value
    case Err(e) => Err(QueryParseError(e.message, start + e.offset))
    case Ok((text, n)) => Ok((text, start + n))
  }

  /** The token of a field, at column `i`, from its value and the index behind the value. */
  function Emitted(field: string, value: Result<(string, nat), QueryParseError>, i: nat): Result<Spanned, QueryParseError> {
    match value
    case Err(e) => Err(e)
    case Ok((text, end)) =>
      match EmitField(field, text)
      case Err(message) => Err(QueryParseError(message, i))
      case Ok((kind, v)) => Ok(Spanned(Token(kind, v, i), end))
  }

  /** A lexeme read at column `i`. */
  function Placed(l: Result<Lexeme, LexError>, i: nat): Result<Spanned, QueryParseError> {
    match l
    case Err(e) => Err(QueryParseError(e.message, i + e.offset))
    case Ok(x) => Ok(Spanned(Token(x.kind, x.value, i), i + x.length))
  }

  lemma FollowingNothing(rest: Result<seq<Spanned>, QueryParseError>)
    ensures Following([], rest) == rest
  {
    assert rest.Ok? ==> [] + rest.value == rest.value;
  }

  lemma FollowingMore(spans: seq<Spanned>, s: Spanned, rest: Result<seq<Spanned>, QueryParseError>)
    ensures Following(spans, Following([s], rest)) == Following(spans + [s], rest)
  {
    assert rest.Ok? ==> spans + ([s] + rest.value) == (spans + [s]) + rest.value;
  }

  /** The scan loop. */
  method Tokenize(query: string) returns (r: Result<seq<Token>, QueryParseError>)
    ensures r == Tokens(query)
  {
    hide NextLexeme;
    var spans, i := [], 0;
    assert query[0..] == query;
    FollowingNothing(Scan(query, 0));
    while i < |query|
      invariant i <= |query|
      invariant Scan(query, 0) == Following(spans, Scan(query[i..], i))
      decreases |query| - i
    {
      if IsSpace(query[i]) {
        assert query[i..][1..] == query[i + 1..];
        i := i + 1;
        continue;
      }
      assert query[i..] != "" && query[i..][0] == query[i];
      var spanned :- ScanToken(query, i);
      assert query[i..][spanned.end - i..] == query[spanned.end..];
      FollowingMore(spans, spanned, Scan(query[spanned.end..], spanned.end));
      spans := spans + [spanned];
      i := spanned.end;
    }
    assert spans + [] == spans;
    return Ok(TokensOf(spans));
  }
}
