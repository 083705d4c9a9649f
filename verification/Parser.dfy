/** The recursive-descent parser over the token list (app/query/parser.py). */
module Parser {
  import opened Wrappers
  import opened QueryAst
  import opened Scanner

  const MAX_DEPTH: nat := 200

  /** A parse tree before normalisation; a `case:` operand carries no term. */
  datatype Raw =
    | Term(node: Node)
    | CaseMarker
    | RawNot(child: Raw, position: nat)
    | RawAnd(children: seq<Raw>)
    | RawOr(children: seq<Raw>)

  /** A tree and the tokens behind it. */
  type Parsed<T> = Result<(T, seq<Token>), QueryParseError>

  function Operand(t: Token, caseSensitive: bool): Raw
    requires t.kind !in {LPAREN, RPAREN, OR, NOT}
  {
    match t.kind
    case SUBSTRING => Term(Substring(t.value, caseSensitive))
    case REGEX => Term(Regex(t.value, caseSensitive))
    case REPO => Term(RepoFilter(t.value))
    case PATH => Term(PathFilter(t.value))
    case LANG => Term(LangFilter(t.value))
    case SYMBOL => Term(SymbolFilter(t.value))
    case BRANCH => Term(BranchFilter(t.value))
    case COMMIT => Term(CommitFilter(t.value))
    case CASE => CaseMarker
  }

  predicate EndsAnd(ts: seq<Token>) {
    ts == [] || ts[0].kind == OR || ts[0].kind == RPAREN
  }

  /** What stays the same through one parse: the case flag and the column of the end of input. */
  datatype Context = Context(caseSensitive: bool, eof: nat)

  // ------------------------------------------------------------------ the grammar

  // or_expr  := and_expr (OR and_expr)*
  function OrExpr(ts: seq<Token>, depth: nat, c: Context): (r: Parsed<Raw>)
    ensures r.Ok? ==> |r.value.1| < |ts|
    decreases |ts|, 5
  {
    match AndExpr(ts, depth, c)
    case Err(e) => Err(e)
    case Ok((first, rest)) => Joined(first, OrTail(rest, depth, c), true)
  }

  function OrTail(ts: seq<Token>, depth: nat, c: Context): (r: Parsed<seq<Raw>>)
    ensures r.Ok? ==> |r.value.1| <= |ts|
    decreases |ts|, 3
  {
    if ts == [] || ts[0].kind != OR then Ok(([], ts))
    else if |ts| == 1 || ts[1].kind == OR || ts[1].kind == RPAREN then
      Err(QueryParseError("expected an operand after 'OR'", ts[0].position))
    else
      match AndExpr(ts[1..], depth, c)
      case Err(e) => Err(e)
      case Ok((next, rest)) => After([next], OrTail(rest, depth, c))
  }

  // and_expr := primary primary*
  function AndExpr(ts: seq<Token>, depth: nat, c: Context): (r: Parsed<Raw>)
    ensures r.Ok? ==> |r.value.1| < |ts|
    decreases |ts|, 4
  {
    match Primary(ts, depth, c)
    case Err(e) => Err(e)
    case Ok((first, rest)) => Joined(first, AndTail(rest, depth, c), false)
  }

  function AndTail(ts: seq<Token>, depth: nat, c: Context): (r: Parsed<seq<Raw>>)
    ensures r.Ok? ==> |r.value.1| <= |ts|
    decreases |ts|, 2
  {
    if EndsAnd(ts) then Ok(([], ts))
    else
      match Primary(ts, depth, c)
      case Err(e) => Err(e)
      case Ok((next, rest)) => After([next], AndTail(rest, depth, c))
  }

  // primary  := NOT primary | '(' or_expr ')' | operand
  function Primary(ts: seq<Token>, depth: nat, c: Context): (r: Parsed<Raw>)
    ensures r.Ok? ==> |r.value.1| < |ts|
    decreases |ts|, 1
  {
    if ts == [] then Err(QueryParseError("unexpected end of input", c.eof))
    else
      var t := ts[0];
      match t.kind
      case NOT =>
        if depth + 1 > MAX_DEPTH then Err(QueryParseError("expression nesting too deep", t.position))
        else Negated(t, Primary(ts[1..], depth + 1, c))
      case LPAREN =>
        if depth + 1 > MAX_DEPTH then Err(QueryParseError("expression nesting too deep", t.position))
        else if |ts| > 1 && ts[1].kind == RPAREN then Err(QueryParseError("empty group", t.position))
        else Closed(t, OrExpr(ts[1..], depth + 1, c))
      case RPAREN => Err(QueryParseError("unexpected ')'", t.position))
      case OR => Err(QueryParseError("unexpected 'OR'", t.position))
      case _ => Ok((Operand(t, c.caseSensitive), ts[1..]))
  }

  function Negated(t: Token, child: Parsed<Raw>): Parsed<Raw> {
    match child
    case Err(e) => Err(e)
    case Ok((raw, rest)) => Ok((RawNot(raw, t.position), rest))
  }

  function Closed(t: Token, inner: Parsed<Raw>): Parsed<Raw> {
    match inner
    case Err(e) => Err(e)
    case Ok((raw, rest)) =>
      if rest == [] || rest[0].kind != RPAREN then Err(QueryParseError("unbalanced parenthesis", t.position))
      else Ok((raw, rest[1..]))
  }

  function After(read: seq<Raw>, tail: Parsed<seq<Raw>>): Parsed<seq<Raw>> {
    match tail
    case Err(e) => Err(e)
    case Ok((more, rest)) => Ok((read + more, rest))
  }

  function Grouped(operands: seq<Raw>, isOr: bool): Raw
    requires operands != []
  {
    if |operands| == 1 then operands[0] else if isOr then RawOr(operands) else RawAnd(operands)
  }

  function Joined(first: Raw, tail: Parsed<seq<Raw>>, isOr: bool): Parsed<Raw> {
    match tail
    case Err(e) => Err(e)
    case Ok((more, rest)) => Ok((Grouped([first] + more, isOr), rest))
  }

  // ------------------------------------------------------------------ the parser object

  lemma AfterNothing(tail: Parsed<seq<Raw>>)
    ensures After([], tail) == tail
  {
    assert tail.Ok? ==> [] + tail.value.0 == tail.value.0;
  }

  lemma AfterMore(read: seq<Raw>, next: Raw, tail: Parsed<seq<Raw>>)
    ensures After(read, After([next], tail)) == After(read + [next], tail)
  {
    assert tail.Ok? ==> read + ([next] + tail.value.0) == (read + [next]) + tail.value.0;
  }

  lemma AfterDone(read: seq<Raw>, rest: seq<Token>)
    ensures After(read, Ok(([], rest))) == Ok((read, rest))
  {
    assert read + [] == read;
  }

  class Parser {
    const tokens: seq<Token>
    const context: Context
    var pos: nat
    var depth: nat

    constructor (tokens: seq<Token>, caseSensitive: bool)
      ensures this.tokens == tokens && pos == 0 && depth == 0
      ensures context == Context(caseSensitive, EofOf(tokens))
    {
      this.tokens := tokens;
      context := Context(caseSensitive, EofOf(tokens));
      pos, depth := 0, 0;
    }

    function Rest(): seq<Token>
      requires pos <= |tokens|
      reads this
    {
      tokens[pos..]
    }

    /** The method stands where the grammar says, with the nesting it started with, or fails like it. */
    ghost predicate Agrees<T>(spec: Parsed<T>, r: Result<T, QueryParseError>, depth0: nat)
      reads this
    {
      match r
      case Err(e) => spec == Err(e)
      case Ok(v) => pos <= |tokens| && depth == depth0 && spec == Ok((v, Rest()))
    }

    method ParseOr() returns (r: Result<Raw, QueryParseError>)
      requires pos <= |tokens|
      modifies this`pos, this`depth
      ensures Agrees(OrExpr(old(Rest()), old(depth), context), r, old(depth))
      decreases |tokens| - pos, 3
    {
      hide AndExpr, After, Joined, Grouped;
      ghost var start := Rest();
      var first :- ParseAnd();
      ghost var tail := OrTail(Rest(), depth, context);
      assert OrExpr(start, depth, context) == Joined(first, tail, true);
      var operands := [first];
      ghost var read: seq<Raw> := [];
      AfterNothing(tail);
      while pos < |tokens| && tokens[pos].kind == OR
        invariant old(pos) < pos <= |tokens| && depth == old(depth)
        invariant operands == [first] + read
        invariant tail == After(read, OrTail(Rest(), depth, context))
        decreases |tokens| - pos
      {
        var next := ParseOrOperand();
        if next.Err? {
          FailsAfter(read, next.error, first, true);
          return next;
        }
        AfterMore(read, next.value, OrTail(Rest(), depth, context));
        read := read + [next.value];
        operands := operands + [next.value];
      }
      AfterDone(read, Rest());
      JoinedAll(first, read, Rest(), true);
      GroupedIs(operands, true);
      return Ok(if |operands| == 1 then operands[0] else RawOr(operands));
    }

    /** The `OR` at the current token and the operand behind it. */
    method ParseOrOperand() returns (r: Result<Raw, QueryParseError>)
      requires pos < |tokens| && tokens[pos].kind == OR
      modifies this`pos, this`depth
      ensures r.Err? ==> OrTail(old(Rest()), old(depth), context) == Err(r.error)
      ensures r.Ok? ==> old(pos) < pos <= |tokens| && depth == old(depth)
      ensures r.Ok? ==> OrTail(old(Rest()), depth, context) == After([r.value], OrTail(Rest(), depth, context))
      decreases |tokens| - pos, 2
    {
      hide AndExpr, After;
      var orToken := tokens[pos];
      assert Rest()[1..] == tokens[pos + 1..];
      pos := pos + 1;
      if pos == |tokens| || tokens[pos].kind == OR || tokens[pos].kind == RPAREN {
        return Err(QueryParseError("expected an operand after 'OR'", orToken.position));
      }
      r := ParseAnd();
    }

    method ParseAnd() returns (r: Result<Raw, QueryParseError>)
      requires pos <= |tokens|
      modifies this`pos, this`depth
      ensures Agrees(AndExpr(old(Rest()), old(depth), context), r, old(depth))
      ensures r.Ok? ==> old(pos) < pos
      decreases |tokens| - pos, 2
    {
      ghost var start := Rest();
      var first :- ParsePrimary();
      ghost var tail := AndTail(Rest(), depth, context);
      assert AndExpr(start, depth, context) == Joined(first, tail, false);
      var operands := [first];
      ghost var read: seq<Raw> := [];
      AfterNothing(tail);
      hide AndExpr, Primary, After, Joined, Grouped;
      while pos < |tokens| && tokens[pos].kind != OR && tokens[pos].kind != RPAREN
        invariant old(pos) < pos <= |tokens| && depth == old(depth)
        invariant operands == [first] + read
        invariant tail == After(read, AndTail(Rest(), depth, context))
        decreases |tokens| - pos
      {
        var next := ParsePrimary();
        if next.Err? {
          FailsAfter(read, next.error, first, false);
          return next;
        }
        AfterMore(read, next.value, AndTail(Rest(), depth, context));
        read := read + [next.value];
        operands := operands + [next.value];
      }
      AfterDone(read, Rest());
      JoinedAll(first, read, Rest(), false);
      GroupedIs(operands, false);
      return Ok(if |operands| == 1 then operands[0] else RawAnd(operands));
    }

    method ParsePrimary() returns (r: Result<Raw, QueryParseError>)
      requires pos <= |tokens|
      modifies this`pos, this`depth
      ensures Agrees(Primary(old(Rest()), old(depth), context), r, old(depth))
      ensures r.Ok? ==> old(pos) < pos
      decreases |tokens| - pos, 1
    {
      if pos == |tokens| {
        return Err(QueryParseError("unexpected end of input", context.eof));
      }
      var t := tokens[pos];
      assert Rest()[1..] == tokens[pos + 1..];
      if t.kind == NOT {
        pos := pos + 1;
        depth := depth + 1;
        if depth > MAX_DEPTH {
          return Err(QueryParseError("expression nesting too deep", t.position));
        }
        var child :- ParsePrimary();
        depth := depth - 1;
        return Ok(RawNot(child, t.position));
      }
      if t.kind == LPAREN {
        r := ParseGroup(t);
        return;
      }
      if t.kind == RPAREN {
        return Err(QueryParseError("unexpected ')'", t.position));
      }
      if t.kind == OR {
        return Err(QueryParseError("unexpected 'OR'", t.position));
      }
      pos := pos + 1;
      return Ok(Operand(t, context.caseSensitive));
    }

    method ParseGroup(t: Token) returns (r: Result<Raw, QueryParseError>)
      requires pos < |tokens| && tokens[pos] == t && t.kind == LPAREN
      modifies this`pos, this`depth
      ensures Agrees(Primary(old(Rest()), old(depth), context), r, old(depth))
      ensures r.Ok? ==> old(pos) < pos
      decreases |tokens| - pos, 0
    {
      assert Rest()[1..] == tokens[pos + 1..];
      pos := pos + 1;
      depth := depth + 1;
      if depth > MAX_DEPTH {
        return Err(QueryParseError("expression nesting too deep", t.position));
      }
      if pos < |tokens| && tokens[pos].kind == RPAREN {
        return Err(QueryParseError("empty group", t.position));
      }
      var inner :- ParseOr();
      if pos == |tokens| || tokens[pos].kind != RPAREN {
        return Err(QueryParseError("unbalanced parenthesis", t.position));
      }
      assert Rest()[1..] == tokens[pos + 1..];
      pos := pos + 1;
      depth := depth - 1;
      return Ok(inner);
    }
  }

  lemma FailsAfter(read: seq<Raw>, e: QueryParseError, first: Raw, isOr: bool)
    ensures Joined(first, After(read, Err(e)), isOr) == Err(e)
  {
  }

  lemma JoinedAll(first: Raw, read: seq<Raw>, rest: seq<Token>, isOr: bool)
    ensures Joined(first, Ok((read, rest)), isOr) == Ok((Grouped([first] + read, isOr), rest))
  {
  }

  lemma GroupedIs(operands: seq<Raw>, isOr: bool)
    requires operands != []
    ensures Grouped(operands, isOr) ==
      if |operands| == 1 then operands[0] else if isOr then RawOr(operands) else RawAnd(operands)
  {
  }

  function EofOf(tokens: seq<Token>): nat {
    if tokens == [] then 0 else tokens[|tokens| - 1].position + |tokens[|tokens| - 1].value|
  }

  /** The last `case:` token wins; without one, matching ignores case. */
  function ResolveCase(tokens: seq<Token>): bool
    decreases |tokens|
  {
    if tokens == [] then false
    else
      var last := tokens[|tokens| - 1];
      if last.kind == CASE then last.value == "yes" else ResolveCase(tokens[..|tokens| - 1])
  }

  /** Matching heeds case exactly if some `case:yes` has no other `case:` behind it. */
  lemma {:induction false} LastCaseDecides(tokens: seq<Token>)
    ensures ResolveCase(tokens) <==> exists i | 0 <= i < |tokens| ::
      tokens[i].kind == CASE && tokens[i].value == "yes" && forall j | i < j < |tokens| :: tokens[j].kind != CASE
    decreases |tokens|
  {
    if tokens != [] {
      var n := |tokens| - 1;
      LastCaseDecides(tokens[..n]);
    }
  }

  method ResolveCaseFlag(tokens: seq<Token>) returns (flag: bool)
    ensures flag == ResolveCase(tokens)
  {
    flag := false;
    for i := 0 to |tokens|
      invariant flag == ResolveCase(tokens[..i])
    {
      assert tokens[..i + 1][..i] == tokens[..i];
      if tokens[i].kind == CASE {
        flag := tokens[i].value == "yes";
      }
    }
    assert tokens[..|tokens|] == tokens;
  }
}
