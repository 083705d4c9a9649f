/**
 A lexeme depends on its own text and on at most the one character behind it.
 So scanning text that is put together can be followed piece by piece.
 */
module ScanLocality {
  import opened Wrappers
  import opened QueryAst
  import opened Scanner

  lemma BareLengthIs(s: string, n: nat)
    requires n <= |s| && (forall i | 0 <= i < n :: !IsStop(s[i])) && (n < |s| ==> IsStop(s[n]))
    ensures BareLength(s) == n
  {
    hide IsStop;
    var k := BareLength(s);
  }

  lemma PrefixLengthIs(s: string, n: nat)
    requires n <= |s| && (forall i | 0 <= i < n :: IsLower(s[i])) && (n < |s| ==> !IsLower(s[n]))
    ensures PrefixLength(s) == n
  {
    hide IsLower;
    var k := PrefixLength(s);
  }

  lemma {:induction false} ReadBodyIsLocal(s: string, delimiter: char, tail: string)
    requires delimiter != '\\' && ReadBody(s, delimiter).Some?
    ensures var n := ReadBody(s, delimiter).value.1;
      ReadBody(s[..n] + tail, delimiter) == ReadBody(s, delimiter)
    decreases |s|
  {
    var n := ReadBody(s, delimiter).value.1;
    ReadBodyAt(s, 0, delimiter);
    assert s[0..] == s;
    if Escaped(s, 0, delimiter) {
      ReadBodyIsLocal(s[2..], delimiter, tail);
      hide ReadBody;
      SameHead(s, n, 2, tail);
      ReadBodyAt(s[..n] + tail, 0, delimiter);
      assert (s[..n] + tail)[0..] == s[..n] + tail;
    } else if s[0] == delimiter {
      assert (s[..1] + tail)[0] == delimiter;
    } else {
      ReadBodyIsLocal(s[1..], delimiter, tail);
      hide ReadBody;
      SameHead(s, n, 1, tail);
      ReadBodyAt(s[..n] + tail, 0, delimiter);
      assert (s[..n] + tail)[0..] == s[..n] + tail;
    }
  }

  lemma SameHead(s: string, n: nat, k: nat, tail: string)
    requires k < n <= |s|
    ensures (s[..n] + tail)[k..] == s[k..][..n - k] + tail
    ensures forall i | 0 <= i <= k :: (s[..n] + tail)[i] == s[i]
  {
  }

  lemma ReadLiteralIsLocal(s: string, delimiter: char, message: string, tail: string)
    requires s != "" && delimiter != '\\' && ReadLiteral(s, delimiter, message).Ok?
    ensures var n := ReadLiteral(s, delimiter, message).value.1;
      ReadLiteral(s[..n] + tail, delimiter, message) == ReadLiteral(s, delimiter, message)
  {
    hide ReadBody;
    var n := ReadLiteral(s, delimiter, message).value.1;
    ReadBodyIsLocal(s[1..], delimiter, tail);
    assert (s[..n] + tail)[1..] == s[1..][..n - 1] + tail;
  }

  /** What may follow a lexeme of length `n` for it to read the same: its old neighbour, whitespace or nothing. */
  predicate Neighbour(s: string, n: nat, tail: string, negation: bool) {
    || (n < |s| && tail != "" && tail[0] == s[n])
    || (!negation && (tail == "" || IsSpace(tail[0])))
  }

  lemma BareIsLocal(s: string, tail: string)
    requires Neighbour(s, BareLength(s), tail, false)
    ensures BareLength(s[..BareLength(s)] + tail) == BareLength(s)
  {
    BareLengthIs(s[..BareLength(s)] + tail, BareLength(s));
  }

  lemma ReadFieldValueIsLocal(s: string, tail: string)
    requires ReadFieldValue(s).Ok? && ReadFieldValue(s).value.1 > 0
    requires Neighbour(s, ReadFieldValue(s).value.1, tail, false)
    ensures ReadFieldValue(s[..ReadFieldValue(s).value.1] + tail) == ReadFieldValue(s)
  {
    hide ReadLiteral, BareLength;
    var n := ReadFieldValue(s).value.1;
    var t := s[..n] + tail;
    assert t[0] == s[0];
    if s[0] == '"' {
      ReadLiteralIsLocal(s, '"', BAD_QUOTE, tail);
    } else if s[0] == '/' {
      ReadLiteralIsLocal(s, '/', BAD_REGEX, tail);
    } else {
      BareIsLocal(s, tail);
      assert t[..n] == s[..n];
    }
  }

  lemma FieldIsLocal(s: string, tail: string)
    requires HasField(s) && FieldLexeme(s).Ok? && Neighbour(s, FieldLexeme(s).value.length, tail, false)
    ensures var t := s[..FieldLexeme(s).value.length] + tail;
      HasField(t) && FieldLexeme(t) == FieldLexeme(s)
  {
    hide ReadFieldValue, FieldFrom, KnownField, IsLower, PrefixLength;
    var k, n := PrefixLength(s), FieldLexeme(s).value.length;
    var value := s[k + 1..];
    EmptyValueIsRefused(s[..k], value);
    SameHead(s, n, k + 1, tail);
    NameIsLocal(s, n, tail);
    assert (s[..n] + tail)[..k] == s[..k];
    assert Neighbour(value, n - k - 1, tail, false) by {
      assert n < |s| ==> value[n - k - 1] == s[n];
    }
    ReadFieldValueIsLocal(value, tail);
  }

  lemma EmptyValueIsRefused(field: string, s: string)
    requires FieldFrom(field, ReadFieldValue(s)).Ok?
    ensures ReadFieldValue(s).value.1 > 0 && FieldFrom(field, ReadFieldValue(s)).value.length == |field| + 1 + ReadFieldValue(s).value.1
  {
    hide ReadLiteral;
  }

  lemma NameIsLocal(s: string, n: nat, tail: string)
    requires PrefixLength(s) < n <= |s|
    ensures PrefixLength(s[..n] + tail) == PrefixLength(s)
  {
    PrefixLengthIs(s[..n] + tail, PrefixLength(s));
  }

  lemma WordIsLocal(s: string, tail: string)
    requires s != "" && !IsStop(s[0]) && !HasField(s) && Neighbour(s, BareLength(s), tail, false)
    ensures var t := s[..BareLength(s)] + tail; !HasField(t) && BareLexeme(t) == BareLexeme(s)
  {
    var n := BareLength(s);
    BareIsLocal(s, tail);
    NoFieldIsLocal(s, tail);
    hide HasField, BareLength, Lowered;
    assert (s[..n] + tail)[..n] == s[..n];
  }

  lemma NoFieldIsLocal(s: string, tail: string)
    requires !HasField(s) && Neighbour(s, BareLength(s), tail, false)
    ensures !HasField(s[..BareLength(s)] + tail)
  {
    hide KnownField;
    var k, n := PrefixLength(s), BareLength(s);
    var t := s[..n] + tail;
    assert !IsStop(':') && !IsLower(':');
    if k < n {
      NameIsLocal(s, n, tail);
      assert t[..k] == s[..k] && t[k] == s[k];
    } else {
      assert k <= n by { assert n < k ==> IsLower(s[n]); }
      PrefixLengthIs(t, n);
    }
  }

  lemma BareLexemeLength(s: string)
    requires s != "" && !IsStop(s[0])
    ensures BareLexeme(s).length == BareLength(s) > 0 && BareLexeme(s).kind in {OR, SUBSTRING}
  {
  }

  lemma NegatesIsLocal(s: string, l: Lexeme, tail: string)
    requires s != "" && !IsSpace(s[0]) && s[0] !in {'(', ')', '/', '"'} && !Negates(s)
    requires NextLexeme(s) == Ok(l) && Neighbour(s, l.length, tail, l.kind == NOT)
    ensures !Negates(s[..l.length] + tail)
  {
    hide ReadFieldValue, EmitField, KnownField, Lowered;
    if s[0] == '-' {
      PrefixLengthIs(s, 0);
      BareLengthIs(s, 1);
    }
  }

  /** A lexeme reads the same in front of any text that starts like its old neighbour, with whitespace, or not at all. */
  lemma LexemeIsLocal(s: string, tail: string)
    requires s != "" && !IsSpace(s[0]) && NextLexeme(s).Ok?
    requires Neighbour(s, NextLexeme(s).value.length, tail, NextLexeme(s).value.kind == NOT)
    ensures NextLexeme(s[..NextLexeme(s).value.length] + tail) == NextLexeme(s)
  {
    hide ReadLiteral, HasField, FieldLexeme, BareLexeme;
    var l := NextLexeme(s).value;
    var t := s[..l.length] + tail;
    assert t[0] == s[0];
    if s[0] == '(' || s[0] == ')' {
    } else if s[0] == '/' {
      ReadLiteralIsLocal(s, '/', BAD_REGEX, tail);
    } else if s[0] == '"' {
      ReadLiteralIsLocal(s, '"', BAD_QUOTE, tail);
    } else if Negates(s) {
    } else {
      NegatesIsLocal(s, l, tail);
      if HasField(s) {
        FieldIsLocal(s, tail);
      } else {
        BareLexemeLength(s);
        WordIsLocal(s, tail);
      }
    }
  }

  // ------------------------------------------------------------------ the word `or`

  /** The text starts with the word `or`, in any case, and the word ends there. */
  predicate StartsWithOr(s: string) {
    |s| >= 2 && s[0] in {'o', 'O'} && s[1] in {'r', 'R'} && (|s| == 2 || IsStop(s[2]))
  }

  lemma LoweredPair(a: char, b: char)
    ensures Lowered([a, b]) == [Lower(a), Lower(b)]
  {
    assert [a, b][1..] == [b] && [b][1..] == "" && Lowered([b]) == [Lower(b)] + Lowered("");
  }

  lemma BareOrExactlyWhen(s: string)
    requires s != "" && !IsStop(s[0])
    ensures BareLexeme(s).kind == OR <==> StartsWithOr(s)
  {
    hide Lowered;
    var word := s[..BareLength(s)];
    if StartsWithOr(s) {
      BareLengthIs(s, 2);
    }
    if |word| == 2 {
      LoweredPair(word[0], word[1]);
      assert word == [word[0], word[1]];
    }
  }

  /** An `or` is read exactly where the text starts with that word, in whatever case. */
  lemma OrIsReadExactlyWhen(s: string)
    requires s != "" && !IsSpace(s[0])
    ensures NextLexeme(s).Ok? && NextLexeme(s).value.kind == OR <==> StartsWithOr(s)
    ensures StartsWithOr(s) ==> NextLexeme(s).value.length == 2
  {
    hide ReadLiteral, ReadFieldValue, BareLexeme, Lowered;
    if StartsWithOr(s) {
      NoFieldInOr(s);
      BareLexemeIsWord(s);
    }
    if s[0] !in {'(', ')', '/', '"'} {
      BareOrExactlyWhen(s);
      if HasField(s) { FieldIsNoOr(s); }
    }
  }

  lemma NoFieldInOr(s: string)
    requires StartsWithOr(s)
    ensures !HasField(s) && !Negates(s) && !IsStop(s[0])
  {
  }

  lemma BareLexemeIsWord(s: string)
    requires StartsWithOr(s)
    ensures BareLexeme(s).length == 2
  {
    BareLengthIs(s, 2);
  }

  lemma FieldIsNoOr(s: string)
    requires HasField(s)
    ensures FieldLexeme(s).Ok? ==> FieldLexeme(s).value.kind != OR
  {
    hide ReadFieldValue, PrefixLength;
  }

  // ------------------------------------------------------------------ bare words, bare values and negation

  /** Characters that stand for themselves, up to a stop or the end of the text. */
  predicate IsBare(word: string, rest: string) {
    word != "" && (forall c <- word :: !IsStop(c)) && (rest == "" || IsStop(rest[0]))
  }

  lemma BareLengthOf(word: string, rest: string)
    requires IsBare(word, rest)
    ensures BareLength(word + rest) == |word| && (word + rest)[..|word|] == word
  {
    hide IsStop;
    assert forall i | 0 <= i < |word| :: (word + rest)[i] == word[i] && word[i] in word;
    BareLengthIs(word + rest, |word|);
  }

  /** A word that opens no literal, negation or field and is no `or` is a search for itself, letter for letter. */
  lemma WordReadsAsItself(word: string, rest: string)
    requires IsBare(word, rest) && word[0] !in {'"', '/', '-'}
    requires !HasField(word + rest) && !StartsWithOr(word + rest)
    ensures !IsSpace((word + rest)[0]) && NextLexeme(word + rest) == Ok(Lexeme(SUBSTRING, word, |word|))
  {
    hide HasField, Lowered, StartsWithOr;
    var s := word + rest;
    assert s[0] == word[0] && word[0] in word;
    BareLengthOf(word, rest);
    BareOrExactlyWhen(s);
    BareLexemeLength(s);
  }

  /** A minus in front of anything but whitespace and a closing parenthesis negates. */
  lemma MinusNegates(rest: string)
    ensures NextLexeme("-" + rest).Ok? && NextLexeme("-" + rest).value.kind == NOT <==>
      rest != "" && !IsSpace(rest[0]) && rest[0] != ')'
  {
    hide ReadLiteral, ReadFieldValue, Lowered;
    var s := "-" + rest;
    PrefixLengthIs(s, 0);
    if rest != "" {
      assert s[1] == rest[0];
    }
  }

  /** A known field name and a colon in front of any text read as a field of that value. */
  lemma FieldIsNext(name: string, value: string)
    requires name != "" && (forall c <- name :: IsLower(c)) && KnownField(name)
    ensures NextLexeme(name + ":" + value) == FieldFrom(name, ReadFieldValue(value))
  {
    hide KnownField, FieldFrom, ReadFieldValue, PrefixLength;
    var text := name + ":" + value;
    assert forall i | 0 <= i < |name| :: text[i] == name[i] && name[i] in name;
    PrefixLengthIs(text, |name|);
    assert text[..|name|] == name && text[|name| + 1..] == value;
    assert IsLower(text[0]) && !Negates(text);
  }

  /** A field with a bare value filters by what the field makes of that value. */
  lemma BareFieldReads(field: string, value: string, kind: TokenKind, v: string, rest: string)
    requires field != "" && (forall c <- field :: IsLower(c)) && KnownField(field)
    requires IsBare(value, rest) && value[0] !in {'"', '/'} && EmitField(field, value) == Ok((kind, v))
    ensures NextLexeme(field + ":" + (value + rest)) == Ok(Lexeme(kind, v, |field| + 1 + |value|))
  {
    hide *;
    BareValueReads(value, rest);
    FieldIsNext(field, value + rest);
    FieldFromIs(field, value, v, kind, |value|, ReadFieldValue(value + rest));
  }

  lemma TableIsKnown(field: string)
    requires field in FIELD_KINDS
    ensures field != "" && (forall c <- field :: IsLower(c)) && KnownField(field)
    ensures field !in RESERVED && field != "case"
  {
  }

  /** The fields of the table filter by the value as it is; `commit:` takes a hash in any case. */
  lemma FieldFiltersByItsValue(field: string, value: string)
    requires field in FIELD_KINDS && value != ""
    requires field == "commit" ==> IsCommitHash(Lowered(value))
    ensures EmitField(field, value) == Ok((FIELD_KINDS[field], if field == "commit" then Lowered(value) else value))
  {
    TableIsKnown(field);
    hide IsCommitHash, Lowered, KnownField;
  }

  lemma BareValueReads(value: string, rest: string)
    requires IsBare(value, rest) && value[0] !in {'"', '/'}
    ensures value != "" && ReadFieldValue(value + rest) == Ok((value, |value|))
  {
    BareLengthOf(value, rest);
    hide BareLength, ReadLiteral;
    assert (value + rest)[0] == value[0];
  }

  lemma FieldFromIs(
    field: string, value: string, v: string, kind: TokenKind, n: nat, read: Result<(string, nat), LexError>)
    requires read == Ok((value, n)) && EmitField(field, value) == Ok((kind, v))
    ensures FieldFrom(field, read) == Ok(Lexeme(kind, v, |field| + 1 + n))
  {
    hide EmitField;
  }

  // ------------------------------------------------------------------ what a field takes, and what is refused

  predicate HexDigit(c: char) {
    '0' <= c <= '9' || 'a' <= c <= 'f' || 'A' <= c <= 'F'
  }

  /** The same digit, in lower case. */
  predicate SameDigit(c: char, lower: char) {
    if 'A' <= c <= 'F' then lower as int - 'a' as int == c as int - 'A' as int else lower == c
  }

  lemma {:induction false} LoweredAt(s: string, i: nat)
    requires i < |s|
    ensures Lowered(s)[i] == Lower(s[i])
    decreases |s|
  {
    if i > 0 {
      LoweredAt(s[1..], i - 1);
    }
  }

  lemma HashExactlyWhen(value: string)
    ensures IsCommitHash(Lowered(value)) <==> 7 <= |value| <= 40 && forall c <- value :: HexDigit(c)
    ensures IsCommitHash(Lowered(value)) ==> forall i | 0 <= i < |value| :: SameDigit(value[i], Lowered(value)[i])
  {
    hide Lowered;
    forall i | 0 <= i < |value|
      ensures Lowered(value)[i] == Lower(value[i]) && (IsHex(Lowered(value)[i]) <==> HexDigit(value[i]))
    {
      LoweredAt(value, i);
    }
    if IsCommitHash(Lowered(value)) {
      forall c | c in value
        ensures HexDigit(c)
      {
        var i :| 0 <= i < |value| && value[i] == c;
        assert Lowered(value)[i] in Lowered(value);
      }
    }
  }

  /** What a field makes of its value. */
  predicate TakesAs(field: string, value: string, kind: TokenKind, v: string) {
    match kind
    case REPO => field == "repo" && v == value
    case PATH => field == "file" && v == value
    case LANG => field == "lang" && v == value
    case SYMBOL => field == "sym" && v == value
    case BRANCH => field == "branch" && v == value
    case CASE => field == "case" && v == value
    case COMMIT => field == "commit" && |v| == |value| && forall i | 0 <= i < |v| :: SameDigit(value[i], v[i])
    case _ => false
  }

  lemma TableReads(field: string, value: string)
    ensures field in FIELD_KINDS <==> field in {"repo", "file", "lang", "sym", "branch", "commit"}
    ensures field in FIELD_KINDS && field != "commit" ==> TakesAs(field, value, FIELD_KINDS[field], value)
    ensures "commit" in FIELD_KINDS && FIELD_KINDS["commit"] == COMMIT && "case" !in FIELD_KINDS
  {
  }

  lemma CaseReads(value: string)
    ensures EmitField("case", value).Ok? <==> value in {"yes", "no"}
    ensures EmitField("case", value).Ok? ==> EmitField("case", value).value == (CASE, value) && TakesAs("case", value, CASE, value)
  {
  }

  lemma CommitReads(value: string)
    ensures EmitField("commit", value).Ok? <==> 7 <= |value| <= 40 && forall c <- value :: HexDigit(c)
    ensures EmitField("commit", value).Ok? ==>
      TakesAs("commit", value, EmitField("commit", value).value.0, EmitField("commit", value).value.1)
  {
    HashExactlyWhen(value);
    hide IsCommitHash, Lowered, HexDigit;
  }

  lemma NoValueIsRefused(field: string)
    ensures EmitField(field, "").Err?
  {
  }

  lemma NoOtherFieldReads(field: string, value: string)
    requires field !in FIELD_KINDS && field != "case"
    ensures EmitField(field, value).Err?
  {
    hide IsCommitHash, Lowered;
  }

  /**
   A field is read exactly if it has a value, which for `case:` is yes or no and for
   `commit:` 7 to 40 hex digits; a hash is kept in lower case, any other value as it is.
   */
  lemma FieldReadsExactlyWhen(field: string, value: string)
    ensures EmitField(field, value).Ok? <==>
      || (field in {"repo", "file", "lang", "sym", "branch"} && value != "")
      || (field == "case" && value in {"yes", "no"})
      || (field == "commit" && 7 <= |value| <= 40 && forall c <- value :: HexDigit(c))
    ensures EmitField(field, value).Ok? ==>
      TakesAs(field, value, EmitField(field, value).value.0, EmitField(field, value).value.1)
  {
    hide EmitField, HexDigit, TakesAs;
    TableReads(field, value);
    if field == "case" {
      CaseReads(value);
    } else if field == "commit" {
      CommitReads(value);
    } else if field !in FIELD_KINDS {
      NoOtherFieldReads(field, value);
    } else if value == "" {
      NoValueIsRefused(field);
    } else {
      FieldFiltersByItsValue(field, value);
    }
  }

  /** A literal that opens at the head of the text and does not end, or a field that is refused. */
  predicate Refused(s: string, message: string) {
    s != "" &&
    (|| (s[0] == '"' && message == "unterminated quoted string" && ReadBody(s[1..], '"') == None)
     || (s[0] == '/' && message == "unterminated regex literal" && ReadBody(s[1..], '/') == None)
     || (HasField(s) && ReadFieldValue(s[PrefixLength(s) + 1..]).Ok?
         && EmitField(s[..PrefixLength(s)], ReadFieldValue(s[PrefixLength(s) + 1..]).value.0).Err?))
  }

  lemma LexemeRefused(s: string)
    requires s != "" && !IsSpace(s[0]) && NextLexeme(s).Err?
    ensures NextLexeme(s).error.offset < |s|
    ensures Refused(s[NextLexeme(s).error.offset..], NextLexeme(s).error.message)
  {
    hide EmitField, KnownField;
    if s[0] !in {'(', ')', '/', '"'} && !Negates(s) && HasField(s) {
      var k := PrefixLength(s);
      if ReadFieldValue(s[k + 1..]).Err? {
        assert s[k + 1..] == s[|s[..k]| + 1..];
      }
    }
    assert s[0..] == s;
  }

  /** The column `column`, counted from `position`, is that of a refusal in the text. */
  predicate RefusedAt(s: string, position: nat, error: QueryParseError) {
    0 <= error.position - position < |s| && Refused(s[error.position - position..], error.message)
  }

  lemma LexemeRefusedAt(s: string, position: nat)
    requires s != "" && !IsSpace(s[0]) && NextLexeme(s).Err?
    ensures var e := NextLexeme(s).error; RefusedAt(s, position, QueryParseError(e.message, position + e.offset))
  {
    hide NextLexeme, Refused;
    LexemeRefused(s);
  }

  lemma RefusedLater(s: string, n: nat, position: nat, error: QueryParseError)
    requires n <= |s| && RefusedAt(s[n..], position + n, error)
    ensures RefusedAt(s, position, error)
  {
    hide Refused;
    assert s[n..][error.position - (position + n)..] == s[error.position - position..];
  }

  lemma ScanFails(s: string, position: nat)
    requires Scan(s, position).Err?
    ensures s != ""
    ensures IsSpace(s[0]) ==> Scan(s, position) == Scan(s[1..], position + 1)
    ensures !IsSpace(s[0]) && NextLexeme(s).Err? ==>
      Scan(s, position).error
      == QueryParseError(NextLexeme(s).error.message, position + NextLexeme(s).error.offset)
    ensures !IsSpace(s[0]) && NextLexeme(s).Ok? ==>
      Scan(s, position) == Scan(s[NextLexeme(s).value.length..], position + NextLexeme(s).value.length)
  {
    hide NextLexeme, IsSpace;
  }

  /** A query that does not scan is refused at its first literal without an end or its first bad field. */
  lemma {:induction false} RefusalPointsAtItsCause(s: string, position: nat)
    requires Scan(s, position).Err?
    ensures RefusedAt(s, position, Scan(s, position).error)
    decreases |s|
  {
    hide *;
    ScanFails(s, position);
    if IsSpace(s[0]) {
      RefusalPointsAtItsCause(s[1..], position + 1);
      RefusedLater(s, 1, position, Scan(s, position).error);
    } else if NextLexeme(s).Err? {
      LexemeRefusedAt(s, position);
    } else {
      var n := NextLexeme(s).value.length;
      RefusalPointsAtItsCause(s[n..], position + n);
      RefusedLater(s, n, position, Scan(s, position).error);
    }
  }
}
