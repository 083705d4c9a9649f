/** `parse` inverts the canonical printing, and what `parse` yields is canonical. */
module QueryRoundTrip {
  import opened Wrappers
  import opened QueryAst
  import opened Scanner
  import opened ScanLocality
  import opened Lexemes
  import opened Parser
  import opened Normalize
  import opened QueryPrint

  /** The number of parentheses and negations around the innermost term. */
  function Nesting(n: Node): nat {
    match n
    case Not(child) => 1 + Nesting(child)
    case And(children) => 1 + MaxNesting(children)
    case Or(children) => 1 + MaxNesting(children)
    case _ => 0
  }

  function MaxNesting(ns: seq<Node>): nat {
    if ns == [] then 0 else if Nesting(ns[0]) > MaxNesting(ns[1..]) then Nesting(ns[0]) else MaxNesting(ns[1..])
  }

  predicate AllProper(ns: seq<Node>, caseSensitive: bool) {
    forall n <- ns :: ProperLeaf(n, caseSensitive)
  }

  /** Trees that `parse` can yield under a case flag. */
  predicate Canonical(n: Node, caseSensitive: bool) {
    Flat(n) && AllProper(LeavesOf(n), caseSensitive)
  }

  // ------------------------------------------------------------------ parsing a printed shape

  predicate Starts(ts: seq<Token>, shape: seq<Shape>) {
    |shape| <= |ts| && forall i | 0 <= i < |shape| :: ts[i].kind == shape[i].0 && ts[i].value == shape[i].1
  }

  lemma StartsParts(ts: seq<Token>, a: seq<Shape>, b: seq<Shape>)
    requires Starts(ts, a + b)
    ensures Starts(ts, a) && Starts(ts[|a|..], b) && ts[|a|..][|b|..] == ts[|a + b|..]
  {
    assert forall i | 0 <= i < |a| :: (a + b)[i] == a[i];
    assert forall i | 0 <= i < |b| :: (a + b)[|a| + i] == b[i];
  }

  lemma ShapeHead(n: Node)
    ensures ShapeOf(n)[0].0 != OR && ShapeOf(n)[0].0 != RPAREN
  {
  }

  predicate Yields(p: Parsed<Raw>, n: Node, rest: seq<Token>) {
    p.Ok? && p.value.1 == rest && Finalize(p.value.0) == Ok(Some(n))
  }

  predicate AllYield(p: Parsed<seq<Raw>>, ns: seq<Node>, rest: seq<Token>) {
    p.Ok? && p.value.1 == rest && Kids(p.value.0) == Ok(ns)
  }

  lemma {:induction false} FlattenNothing(children: seq<Node>, isOr: bool)
    requires forall c <- children :: !IsOperator(c, isOr)
    ensures Flatten(children, isOr) == children
    decreases |children|
  {
    if children != [] {
      var n := |children| - 1;
      FlattenNothing(children[..n], isOr);
      assert !IsOperator(children[n], isOr);
      assert children == children[..n] + [children[n]];
    }
  }

  lemma KidsCons(first: Raw, more: seq<Raw>, n: Node, ns: seq<Node>)
    requires Finalize(first) == Ok(Some(n)) && Kids(more) == Ok(ns)
    ensures Kids([first] + more) == Ok([n] + ns)
  {
    assert ([first] + more)[1..] == more;
  }

  /** An operator over at least two terms, none of them the same operator, is kept as it is. */
  lemma GroupYields(first: Raw, more: seq<Raw>, n: Node, ns: seq<Node>, isOr: bool)
    requires Finalize(first) == Ok(Some(n)) && Kids(more) == Ok(ns) && ns != []
    requires forall c <- [n] + ns :: !IsOperator(c, isOr)
    ensures Finalize(Grouped([first] + more, isOr)) == Ok(Some(if isOr then Or([n] + ns) else And([n] + ns)))
  {
    KidsCons(first, more, n, ns);
    FlattenNothing([n] + ns, isOr);
  }

  lemma ProperParts(ns: seq<Node>, caseSensitive: bool)
    requires ns != [] && AllProper(LeavesOfAll(ns), caseSensitive)
    ensures AllProper(LeavesOf(ns[0]), caseSensitive) && AllProper(LeavesOfAll(ns[1..]), caseSensitive)
  {
    hide LeavesOf, ProperLeaf;
    assert forall n <- LeavesOf(ns[0]) :: n in LeavesOfAll(ns);
    assert forall n <- LeavesOfAll(ns[1..]) :: n in LeavesOfAll(ns);
  }

  /** A printed tree is one primary, unless it nests too deep. */
  lemma NegationOfShape(child: Node, ts: seq<Token>, depth: nat, c: Context)
    requires Starts(ts, ShapeOf(Not(child))) && depth <= MAX_DEPTH
    requires depth < MAX_DEPTH && depth + 1 + Nesting(child) <= MAX_DEPTH ==>
      Yields(Primary(ts[1..], depth + 1, c), child, ts[1..][|ShapeOf(child)|..])
    requires depth < MAX_DEPTH && depth + 1 + Nesting(child) > MAX_DEPTH ==> Primary(ts[1..], depth + 1, c).Err?
    ensures var n := Not(child);
      && (depth + Nesting(n) <= MAX_DEPTH ==> Yields(Primary(ts, depth, c), n, ts[|ShapeOf(n)|..]))
      && (depth + Nesting(n) > MAX_DEPTH ==> Primary(ts, depth, c).Err?)
  {
    StartsParts(ts, [(NOT, "-")], ShapeOf(child));
    assert ts[0].kind == NOT;
    assert ts[1..][|ShapeOf(child)|..] == ts[|ShapeOf(child)| + 1..];
  }

  lemma LeafOfShape(n: Node, ts: seq<Token>, depth: nat, c: Context)
    requires IsLeaf(n) && Canonical(n, c.caseSensitive) && Starts(ts, ShapeOf(n)) && depth <= MAX_DEPTH
    ensures Nesting(n) == 0 && Yields(Primary(ts, depth, c), n, ts[|ShapeOf(n)|..])
  {
    assert n in LeavesOf(n);
    assert ts[0].kind == LeafKind(n);
  }

  lemma {:induction false} PrimaryOfShape(n: Node, ts: seq<Token>, depth: nat, c: Context)
    requires Canonical(n, c.caseSensitive) && Starts(ts, ShapeOf(n)) && depth <= MAX_DEPTH
    ensures depth + Nesting(n) <= MAX_DEPTH ==> Yields(Primary(ts, depth, c), n, ts[|ShapeOf(n)|..])
    ensures depth + Nesting(n) > MAX_DEPTH ==> Primary(ts, depth, c).Err?
    decreases n, 1
  {
    hide Primary, Yields;
    match n
    case Not(child) =>
      StartsParts(ts, [(NOT, "-")], ShapeOf(child));
      if depth < MAX_DEPTH {
        PrimaryOfShape(child, ts[1..], depth + 1, c);
      }
      NegationOfShape(child, ts, depth, c);
    case And(children) =>
      GroupOfShape(children, false, ts, depth, c);
    case Or(children) =>
      GroupOfShape(children, true, ts, depth, c);
    case _ =>
      LeafOfShape(n, ts, depth, c);
  }

  predicate Groupable(ns: seq<Node>, isOr: bool, caseSensitive: bool) {
    |ns| >= 2 && (forall n <- ns :: !IsOperator(n, isOr) && Flat(n)) && AllProper(LeavesOfAll(ns), caseSensitive)
  }

  function GroupShape(ns: seq<Node>, isOr: bool): seq<Shape> {
    [(LPAREN, "(")] + (ShapeAll(ns, isOr) + [(RPAREN, ")")])
  }

  lemma {:induction false} GroupOfShape(ns: seq<Node>, isOr: bool, ts: seq<Token>, depth: nat, c: Context)
    requires Groupable(ns, isOr, c.caseSensitive) && Starts(ts, GroupShape(ns, isOr)) && depth <= MAX_DEPTH
    ensures depth + 1 + MaxNesting(ns) <= MAX_DEPTH ==>
      Yields(Primary(ts, depth, c), if isOr then Or(ns) else And(ns), ts[|GroupShape(ns, isOr)|..])
    ensures depth + 1 + MaxNesting(ns) > MAX_DEPTH ==> Primary(ts, depth, c).Err?
    decreases ns, 1
  {
    StartsParts(ts, [(LPAREN, "(")], ShapeAll(ns, isOr) + [(RPAREN, ")")]);
    StartsParts(ts[1..], ShapeAll(ns, isOr), [(RPAREN, ")")]);
    assert ts[0].kind == LPAREN;
    if depth < MAX_DEPTH {
      ListOfShape(ns, isOr, ts[1..], depth + 1, c);
      hide ShapeAll, OrExpr, Finalize, MaxNesting;
      var rest := ts[1..][|ShapeAll(ns, isOr)|..];
      assert rest[0].kind == RPAREN;
      assert rest[1..] == ts[|GroupShape(ns, isOr)|..];
    }
  }

  /** The inside of a group: an or_expr up to the closing parenthesis. */
  lemma {:induction false} ListOfShape(ns: seq<Node>, isOr: bool, ts: seq<Token>, depth: nat, c: Context)
    requires Groupable(ns, isOr, c.caseSensitive) && Starts(ts, ShapeAll(ns, isOr)) && depth <= MAX_DEPTH
    requires var rest := ts[|ShapeAll(ns, isOr)|..]; rest != [] && rest[0].kind == RPAREN
    ensures depth + MaxNesting(ns) <= MAX_DEPTH ==>
      Yields(OrExpr(ts, depth, c), if isOr then Or(ns) else And(ns), ts[|ShapeAll(ns, isOr)|..])
    ensures depth + MaxNesting(ns) > MAX_DEPTH ==> OrExpr(ts, depth, c).Err?
    ensures ts[0].kind != RPAREN
    decreases ns, 0
  {
    var n, tail := ns[0], ns[1..];
    assert ns == [n] + tail;
    StartsParts(ts, ShapeOf(n), ShapeTail(tail, isOr));
    ProperParts(ns, c.caseSensitive);
    ShapeHead(n);
    PrimaryOfShape(n, ts, depth, c);
    var behind := ts[|ShapeOf(n)|..];
    assert behind[|ShapeTail(tail, isOr)|..] == ts[|ShapeAll(ns, isOr)|..];
    if isOr {
      OrTailOfShape(tail, behind, depth, c);
      hide Primary, ShapeOf, Finalize, Kids, MaxNesting, Nesting;
      assert behind[0] == behind[..1][0] && EndsAnd(behind);
      ArmIsPrimary(ts, depth, c);
    } else {
      AndTailOfShape(tail, behind, depth, c);
    }
    hide Primary, ShapeOf, ShapeTail, Finalize, Kids, AndTail;
    if Primary(ts, depth, c).Ok? && depth + MaxNesting(ns) <= MAX_DEPTH {
      var tailParse := if isOr then OrTail(behind, depth, c) else AndTail(behind, depth, c);
      GroupYields(Primary(ts, depth, c).value.0, tailParse.value.0, n, tail, isOr);
    }
  }

  /** Where no second primary follows, an and_expr is its one primary. */
  lemma ArmIsPrimary(ts: seq<Token>, depth: nat, c: Context)
    requires Primary(ts, depth, c).Ok? ==> EndsAnd(Primary(ts, depth, c).value.1)
    ensures AndExpr(ts, depth, c) == Primary(ts, depth, c)
  {
    hide Primary;
    if Primary(ts, depth, c).Ok? {
      assert [Primary(ts, depth, c).value.0] + [] == [Primary(ts, depth, c).value.0];
    }
  }

  predicate Listable(ns: seq<Node>, caseSensitive: bool) {
    (forall n <- ns :: Flat(n)) && AllProper(LeavesOfAll(ns), caseSensitive)
  }

  /** The tokens of the remaining children of a group, up to its closing parenthesis. */
  predicate TailShape(ns: seq<Node>, isOr: bool, ts: seq<Token>) {
    Starts(ts, ShapeTail(ns, isOr)) && var rest := ts[|ShapeTail(ns, isOr)|..]; rest != [] && rest[0].kind == RPAREN
  }

  lemma {:induction false} AndTailOfShape(ns: seq<Node>, ts: seq<Token>, depth: nat, c: Context)
    requires Listable(ns, c.caseSensitive) && TailShape(ns, false, ts) && depth <= MAX_DEPTH
    ensures depth + MaxNesting(ns) <= MAX_DEPTH ==>
      AllYield(AndTail(ts, depth, c), ns, ts[|ShapeTail(ns, false)|..])
    ensures depth + MaxNesting(ns) > MAX_DEPTH ==> AndTail(ts, depth, c).Err?
    decreases ns, 0
  {
    if ns != [] {
      ListableParts(ns, c.caseSensitive);
      TailParts(ns, false, ts);
      var n, tail, behind := ns[0], ns[1..], ts[|ShapeOf(ns[0])|..];
      PrimaryOfShape(n, ts, depth, c);
      AndTailOfShape(tail, behind, depth, c);
      hide Primary, ShapeOf, ShapeTail, Finalize, Kids;
      if depth + MaxNesting(ns) <= MAX_DEPTH {
        KidsCons(Primary(ts, depth, c).value.0, AndTail(behind, depth, c).value.0, n, tail);
      }
    }
  }

  lemma ListableParts(ns: seq<Node>, caseSensitive: bool)
    requires ns != [] && Listable(ns, caseSensitive)
    ensures Canonical(ns[0], caseSensitive) && Listable(ns[1..], caseSensitive) && ns == [ns[0]] + ns[1..]
  {
    ProperParts(ns, caseSensitive);
    hide AllProper, LeavesOf, LeavesOfAll;
    assert ns[0] in ns;
  }

  /** The first item of a tail, and the tail behind it. */
  lemma TailParts(ns: seq<Node>, isOr: bool, ts: seq<Token>)
    requires ns != [] && TailShape(ns, isOr, ts)
    ensures isOr ==> ts[0].kind == OR
    ensures |SeparatorShape(isOr)| < |ts|
    ensures var t := ts[|SeparatorShape(isOr)|..];
      && t[0].kind != OR && t[0].kind != RPAREN && Starts(t, ShapeOf(ns[0]))
      && TailShape(ns[1..], isOr, t[|ShapeOf(ns[0])|..])
      && t[|ShapeOf(ns[0])|..][|ShapeTail(ns[1..], isOr)|..] == ts[|ShapeTail(ns, isOr)|..]
  {
    var sep, first, more := SeparatorShape(isOr), ShapeOf(ns[0]), ShapeTail(ns[1..], isOr);
    assert ShapeTail(ns, isOr) == sep + (first + more);
    ShapeHead(ns[0]);
    hide ShapeOf, Starts, ShapeTail;
    StartsParts(ts, sep, first + more);
    StartsParts(ts[|sep|..], first, more);
    StartsHead(ts[|sep|..], first);
    if isOr {
      StartsHead(ts, sep);
    }
  }

  lemma StartsHead(ts: seq<Token>, shape: seq<Shape>)
    requires Starts(ts, shape) && shape != []
    ensures |shape| <= |ts| && ts[0].kind == shape[0].0
  {
  }

  lemma {:induction false} OrTailOfShape(ns: seq<Node>, ts: seq<Token>, depth: nat, c: Context)
    requires Listable(ns, c.caseSensitive) && TailShape(ns, true, ts) && depth <= MAX_DEPTH
    ensures depth + MaxNesting(ns) <= MAX_DEPTH ==>
      AllYield(OrTail(ts, depth, c), ns, ts[|ShapeTail(ns, true)|..])
    ensures depth + MaxNesting(ns) > MAX_DEPTH ==> OrTail(ts, depth, c).Err?
    decreases ns, 0
  {
    hide Primary, ShapeOf, Finalize, Listable;
    if ns != [] {
      hide Kids;
      ListableParts(ns, c.caseSensitive);
      TailParts(ns, true, ts);
      var n, tail, behind := ns[0], ns[1..], ts[1..][|ShapeOf(ns[0])|..];
      PrimaryOfShape(n, ts[1..], depth, c);
      OrTailOfShape(tail, behind, depth, c);
      TailEnds(tail, behind);
      ArmIsPrimary(ts[1..], depth, c);
      if depth + MaxNesting(ns) <= MAX_DEPTH {
        KidsCons(Primary(ts[1..], depth, c).value.0, OrTail(behind, depth, c).value.0, n, tail);
      }
    }
  }

  /** Behind an arm comes the next `or`, or the closing parenthesis. */
  lemma TailEnds(ns: seq<Node>, ts: seq<Token>)
    requires TailShape(ns, true, ts)
    ensures EndsAnd(ts)
  {
    if ns != [] {
      TailParts(ns, true, ts);
    } else {
      assert ts[0..] == ts;
    }
  }

  // ------------------------------------------------------------------ the whole query

  lemma {:induction false} NoCaseInShape(n: Node)
    ensures forall s <- ShapeOf(n) :: s.0 != CASE
    decreases n, 1
  {
    match n
    case Not(child) => NoCaseInShape(child);
    case And(children) => NoCaseInAll(children, false);
    case Or(children) => NoCaseInAll(children, true);
    case _ =>
  }

  lemma {:induction false} NoCaseInAll(ns: seq<Node>, isOr: bool)
    ensures forall s <- ShapeAll(ns, isOr) :: s.0 != CASE
    ensures forall s <- ShapeTail(ns, isOr) :: s.0 != CASE
    decreases ns, 0
  {
    if ns != [] {
      NoCaseInShape(ns[0]);
      NoCaseInAll(ns[1..], isOr);
    }
  }

  /** Tokens behind the last `case:` do not matter to the flag. */
  lemma {:induction false} ResolveCaseIgnores(tokens: seq<Token>, k: nat)
    requires k <= |tokens| && forall i | k <= i < |tokens| :: tokens[i].kind != CASE
    ensures ResolveCase(tokens) == ResolveCase(tokens[..k])
    decreases |tokens|
  {
    if k < |tokens| {
      ResolveCaseIgnores(tokens[..|tokens| - 1], k);
      assert tokens[..|tokens| - 1][..k] == tokens[..k];
    } else {
      assert tokens[..k] == tokens;
    }
  }

  function FlagShape(caseSensitive: bool): seq<Shape> {
    if caseSensitive then [(CASE, "yes")] else []
  }

  lemma CaseWord(rest: string)
    ensures NextLexeme("case:yes" + (" " + rest)) == Ok(Lexeme(CASE, "yes", 8))
  {
    hide BareLength, PrefixLength, Lowered;
    var text := "case:yes" + (" " + rest);
    PrefixLengthIs(text, 4);
    assert text[..4] == "case";
    assert text[5..] == "yes" + (" " + rest);
    BareLengthIs(text[5..], 3);
    assert text[5..][..3] == "yes";
  }

  lemma FlagReads(caseSensitive: bool, rest: string)
    ensures Reads(if caseSensitive then "case:yes " else "", rest, FlagShape(caseSensitive))
  {
    if caseSensitive {
      CaseWord(rest);
      ReadsLexeme("case:yes", " " + rest, CASE, "yes");
      ReadsSpace(rest);
      hide Reads;
      ReadsConcat("case:yes", " ", rest, [(CASE, "yes")], []);
      assert "case:yes" + " " == "case:yes " && [(CASE, "yes")] + [] == FlagShape(true);
    } else {
      ReadsNothing(rest);
    }
  }

  /** The tokens of a printed query. */
  lemma PrintedTokens(n: Node, caseSensitive: bool)
    requires AllPrintable(LeavesOf(n), caseSensitive)
    ensures Tokens(Print(n, caseSensitive)).Ok?
    ensures var tokens := Tokens(Print(n, caseSensitive)).value;
      && Starts(tokens, FlagShape(caseSensitive) + ShapeOf(n))
      && |tokens| == |FlagShape(caseSensitive) + ShapeOf(n)|
      && ResolveCase(tokens) == caseSensitive
  {
    var text := Print(n, caseSensitive);
    PrintReads(n, caseSensitive);
    hide Print, ShapeOf, ResolveCase, AllPrintable, LeavesOf, FlagShape;
    ReadsAll(text, FlagShape(caseSensitive) + ShapeOf(n));
    PrintedFlag(n, Tokens(text).value, caseSensitive);
  }

  lemma PrintReads(n: Node, caseSensitive: bool)
    requires AllPrintable(LeavesOf(n), caseSensitive)
    ensures Reads(Print(n, caseSensitive), "", FlagShape(caseSensitive) + ShapeOf(n))
  {
    hide PrintNode, ShapeOf, Reads, AllPrintable;
    var flag := if caseSensitive then "case:yes " else "";
    FlagReads(caseSensitive, PrintNode(n) + "");
    NodeReads(n, caseSensitive, "");
    ReadsConcat(flag, PrintNode(n), "", FlagShape(caseSensitive), ShapeOf(n));
  }

  lemma ReadsAll(text: string, shape: seq<Shape>)
    requires Reads(text, "", shape)
    ensures Tokens(text).Ok? && Starts(Tokens(text).value, shape) && |Tokens(text).value| == |shape|
  {
    assert text + "" == text && shape + [] == shape;
    ScanHasShapes(text, 0);
  }

  lemma PrintedFlag(n: Node, tokens: seq<Token>, caseSensitive: bool)
    requires Starts(tokens, FlagShape(caseSensitive) + ShapeOf(n))
    requires |tokens| == |FlagShape(caseSensitive) + ShapeOf(n)|
    ensures ResolveCase(tokens) == caseSensitive
  {
    hide ResolveCase;
    var k := |FlagShape(caseSensitive)|;
    NoCaseInShape(n);
    StartsParts(tokens, FlagShape(caseSensitive), ShapeOf(n));
    forall i | k <= i < |tokens|
      ensures tokens[i].kind != CASE
    {
      assert tokens[k..][i - k].kind == ShapeOf(n)[i - k].0;
      assert ShapeOf(n)[i - k] in ShapeOf(n);
    }
    ResolveCaseIgnores(tokens, k);
    FlagResolves(tokens[..k], caseSensitive);
  }

  lemma FlagResolves(tokens: seq<Token>, caseSensitive: bool)
    requires |tokens| == |FlagShape(caseSensitive)| && Starts(tokens, FlagShape(caseSensitive))
    ensures ResolveCase(tokens) == caseSensitive
  {
  }

  /** The whole token list of a printed query, with its flag, parses to the tree. */
  lemma PrintedParses(n: Node, tokens: seq<Token>, c: Context)
    requires Canonical(n, c.caseSensitive)
    requires Starts(tokens, FlagShape(c.caseSensitive) + ShapeOf(n))
    requires |tokens| == |FlagShape(c.caseSensitive) + ShapeOf(n)|
    ensures Nesting(n) <= MAX_DEPTH ==> Yields(OrExpr(tokens, 0, c), n, [])
    ensures Nesting(n) > MAX_DEPTH ==> OrExpr(tokens, 0, c).Err?
  {
    var ts := tokens[|FlagShape(c.caseSensitive)|..];
    StartsParts(tokens, FlagShape(c.caseSensitive), ShapeOf(n));
    ShapeHead(n);
    PrimaryOfShape(n, ts, 0, c);
    assert ts[|ShapeOf(n)|..] == [] && ts != [] && !EndsAnd(ts);
    hide Primary, ShapeOf, Nesting, Finalize, OrExpr;
    if c.caseSensitive {
      assert tokens[0].kind == CASE && tokens[1..] == ts;
      FlaggedParses(tokens, ts, c);
      if Primary(ts, 0, c).Ok? {
        FlaggedYields(Primary(ts, 0, c).value.0, n);
      }
    } else {
      assert tokens == ts;
      AloneParses(ts, c);
    }
  }

  /** A last operand that is the whole input. */
  lemma AloneParses(ts: seq<Token>, c: Context)
    requires Primary(ts, 0, c).Ok? ==> Primary(ts, 0, c).value.1 == []
    ensures OrExpr(ts, 0, c) == Primary(ts, 0, c)
  {
    hide Primary;
    ArmIsPrimary(ts, 0, c);
    if Primary(ts, 0, c).Ok? {
      assert [Primary(ts, 0, c).value.0] + [] == [Primary(ts, 0, c).value.0];
    }
  }

  /** The same operand behind a `case:`. */
  lemma FlaggedParses(tokens: seq<Token>, ts: seq<Token>, c: Context)
    requires tokens != [] && tokens[0].kind == CASE && tokens[1..] == ts && !EndsAnd(ts)
    requires Primary(ts, 0, c).Ok? ==> Primary(ts, 0, c).value.1 == []
    ensures Primary(ts, 0, c).Err? ==> OrExpr(tokens, 0, c).Err?
    ensures Primary(ts, 0, c).Ok? ==> OrExpr(tokens, 0, c) == Ok((RawAnd([CaseMarker, Primary(ts, 0, c).value.0]), []))
  {
    assert Primary(tokens, 0, c) == Ok((CaseMarker, ts));
    hide Primary;
    if Primary(ts, 0, c).Ok? {
      var raw := Primary(ts, 0, c).value.0;
      assert AndTail(ts, 0, c) == Ok(([raw] + [], []));
      assert [CaseMarker] + ([raw] + []) == [CaseMarker, raw];
      var and := RawAnd([CaseMarker, raw]);
      assert AndExpr(tokens, 0, c) == Ok((and, []));
      assert [and] + [] == [and];
    } else {
      assert AndTail(ts, 0, c).Err? && AndExpr(tokens, 0, c).Err?;
    }
  }

  lemma FlaggedYields(raw: Raw, n: Node)
    requires Finalize(raw) == Ok(Some(n))
    ensures Finalize(RawAnd([CaseMarker, raw])) == Ok(Some(n))
  {
    KidsCons(raw, [], n, []);
    assert [raw] + [] == [raw] && [n] + [] == [n];
    assert [CaseMarker, raw][1..] == [raw] && [] + [n] == [n];
    assert Kids([CaseMarker, raw]) == Ok([n]);
  }

  /**
   Round trip: for each canonical tree none of whose values ends in a backslash,
   `parse` of its printing is the tree exactly when it nests at most 200 deep.
   */
  lemma ParseInvertsPrint(n: Node, caseSensitive: bool)
    requires Flat(n) && AllPrintable(LeavesOf(n), caseSensitive)
    ensures Parse(Print(n, caseSensitive)) == Ok(n) <==> Nesting(n) <= MAX_DEPTH
  {
    PrintedTokens(n, caseSensitive);
    var tokens := Tokens(Print(n, caseSensitive)).value;
    assert AllProper(LeavesOf(n), caseSensitive);
    hide Tokens, OrExpr, ResolveCase, Finalize, Print, Nesting;
    PrintedParses(n, tokens, Context(caseSensitive, EofOf(tokens)));
  }

  // ------------------------------------------------------------------ what parse can yield

  /** A field token has a value, and a commit token a hash. */
  predicate ProperToken(t: Token) {
    && (t.kind in {REPO, PATH, LANG, SYMBOL, BRANCH} ==> t.value != "")
    && (t.kind == COMMIT ==> IsCommitHash(t.value))
  }

  predicate ProperTokens(ts: seq<Token>) {
    forall t <- ts :: ProperToken(t)
  }

  lemma LexemeIsProper(s: string, position: nat)
    requires s != "" && !IsSpace(s[0]) && NextLexeme(s).Ok?
    ensures var l := NextLexeme(s).value; ProperToken(Token(l.kind, l.value, position))
  {
    hide ReadLiteral, ReadFieldValue, IsCommitHash, BareLength, PrefixLength, Lowered;
  }

  predicate ProperSpans(spans: seq<Spanned>) {
    forall s <- spans :: ProperToken(s.token)
  }

  lemma ProperCons(first: Spanned, rest: seq<Spanned>)
    requires ProperToken(first.token) && ProperSpans(rest)
    ensures ProperSpans([first] + rest)
  {
    hide ProperToken;
  }

  lemma ScanOfLexeme(s: string, position: nat)
    requires s != "" && !IsSpace(s[0]) && NextLexeme(s).Ok?
    ensures var l := NextLexeme(s).value;
      Scan(s, position)
      == Following([Spanned(Token(l.kind, l.value, position), position + l.length)], Scan(s[l.length..], position + l.length))
  {
  }

  lemma {:induction false} ScanIsProper(s: string, position: nat)
    requires Scan(s, position).Ok?
    ensures ProperSpans(Scan(s, position).value)
    decreases |s|
  {
    hide NextLexeme, ProperToken, IsSpace;
    if s == "" {
    } else if IsSpace(s[0]) {
      ScanIsProper(s[1..], position + 1);
    } else {
      LexemeIsProper(s, position);
      ScanOfLexeme(s, position);
      var l := NextLexeme(s).value;
      ScanIsProper(s[l.length..], position + l.length);
      ProperCons(
        Spanned(Token(l.kind, l.value, position), position + l.length), Scan(s[l.length..], position + l.length).value);
    }
  }

  lemma TokensAreProper(query: string)
    requires Tokens(query).Ok?
    ensures ProperTokens(Tokens(query).value)
  {
    hide ProperToken;
    ScanIsProper(query, 0);
  }

  /** A parse tree over proper terms with one case flag. */
  predicate Proper(raw: Raw, caseSensitive: bool) {
    match raw
    case CaseMarker => true
    case Term(n) => ProperLeaf(n, caseSensitive)
    case RawNot(child, _) => Proper(child, caseSensitive)
    case RawAnd(children) => forall c <- children :: Proper(c, caseSensitive)
    case RawOr(children) => forall c <- children :: Proper(c, caseSensitive)
  }

  lemma {:induction false} ProperLeaves(raw: Raw, caseSensitive: bool)
    requires Proper(raw, caseSensitive)
    ensures Grown(raw) && AllProper(RawLeaves(raw), caseSensitive)
    decreases raw, 1
  {
    match raw
    case CaseMarker =>
    case Term(n) =>
    case RawNot(child, _) => ProperLeaves(child, caseSensitive);
    case RawAnd(children) => ProperLeavesAll(children, caseSensitive);
    case RawOr(children) => ProperLeavesAll(children, caseSensitive);
  }

  lemma {:induction false} ProperLeavesAll(raws: seq<Raw>, caseSensitive: bool)
    requires forall c <- raws :: Proper(c, caseSensitive)
    ensures (forall c <- raws :: Grown(c)) && AllProper(RawLeavesAll(raws), caseSensitive)
    decreases raws, 0
  {
    if raws != [] {
      ProperLeaves(raws[0], caseSensitive);
      ProperLeavesAll(raws[1..], caseSensitive);
      assert raws == [raws[0]] + raws[1..];
    }
  }

  /** A parsed tree is proper, and what stands behind it ends a conjunction. */
  predicate Sound(p: Parsed<Raw>, c: Context) {
    p.Ok? ==> Proper(p.value.0, c.caseSensitive) && ProperTokens(p.value.1)
  }

  predicate TailSound(p: Parsed<seq<Raw>>, c: Context) {
    p.Ok? ==> (forall raw <- p.value.0 :: Proper(raw, c.caseSensitive)) && ProperTokens(p.value.1)
  }

  lemma JoinedIsSound(first: Raw, tail: Parsed<seq<Raw>>, isOr: bool, c: Context)
    requires Proper(first, c.caseSensitive) && TailSound(tail, c)
    ensures Sound(Joined(first, tail, isOr), c)
  {
  }

  lemma AfterIsSound(next: Raw, tail: Parsed<seq<Raw>>, c: Context)
    requires Proper(next, c.caseSensitive) && TailSound(tail, c)
    ensures TailSound(After([next], tail), c)
  {
  }

  lemma {:induction false} OrExprIsSound(ts: seq<Token>, depth: nat, c: Context)
    requires ProperTokens(ts)
    ensures Sound(OrExpr(ts, depth, c), c)
    ensures OrExpr(ts, depth, c).Ok? ==>
      var rest := OrExpr(ts, depth, c).value.1; rest == [] || rest[0].kind == RPAREN
    decreases |ts|, 5
  {
    AndExprIsSound(ts, depth, c);
    hide AndExpr, OrTail, Proper;
    if AndExpr(ts, depth, c).Ok? {
      var (first, rest) := AndExpr(ts, depth, c).value;
      OrTailIsSound(rest, depth, c);
      JoinedIsSound(first, OrTail(rest, depth, c), true, c);
    }
  }

  lemma {:induction false} OrTailIsSound(ts: seq<Token>, depth: nat, c: Context)
    requires ProperTokens(ts) && EndsAnd(ts)
    ensures TailSound(OrTail(ts, depth, c), c)
    ensures OrTail(ts, depth, c).Ok? ==>
      var rest := OrTail(ts, depth, c).value.1; rest == [] || rest[0].kind == RPAREN
    decreases |ts|, 3
  {
    hide AndExpr, Proper;
    if ts != [] && ts[0].kind == OR && |ts| > 1 {
      AndExprIsSound(ts[1..], depth, c);
      if AndExpr(ts[1..], depth, c).Ok? {
        var (next, rest) := AndExpr(ts[1..], depth, c).value;
        OrTailIsSound(rest, depth, c);
        AfterIsSound(next, OrTail(rest, depth, c), c);
      }
    }
  }

  lemma {:induction false} AndExprIsSound(ts: seq<Token>, depth: nat, c: Context)
    requires ProperTokens(ts)
    ensures Sound(AndExpr(ts, depth, c), c)
    ensures AndExpr(ts, depth, c).Ok? ==> EndsAnd(AndExpr(ts, depth, c).value.1)
    decreases |ts|, 4
  {
    PrimaryIsSound(ts, depth, c);
    hide Primary, AndTail, Proper;
    if Primary(ts, depth, c).Ok? {
      var (first, rest) := Primary(ts, depth, c).value;
      AndTailIsSound(rest, depth, c);
      JoinedIsSound(first, AndTail(rest, depth, c), false, c);
    }
  }

  lemma {:induction false} AndTailIsSound(ts: seq<Token>, depth: nat, c: Context)
    requires ProperTokens(ts)
    ensures TailSound(AndTail(ts, depth, c), c)
    ensures AndTail(ts, depth, c).Ok? ==> EndsAnd(AndTail(ts, depth, c).value.1)
    decreases |ts|, 2
  {
    hide Primary, Proper;
    if !EndsAnd(ts) {
      PrimaryIsSound(ts, depth, c);
      if Primary(ts, depth, c).Ok? {
        var (next, rest) := Primary(ts, depth, c).value;
        AndTailIsSound(rest, depth, c);
        AfterIsSound(next, AndTail(rest, depth, c), c);
      }
    }
  }

  lemma {:induction false} PrimaryIsSound(ts: seq<Token>, depth: nat, c: Context)
    requires ProperTokens(ts)
    ensures Sound(Primary(ts, depth, c), c)
    decreases |ts|, 1
  {
    if ts != [] && depth < MAX_DEPTH && ts[0].kind == NOT {
      PrimaryIsSound(ts[1..], depth + 1, c);
    } else if ts != [] && depth < MAX_DEPTH && ts[0].kind == LPAREN {
      OrExprIsSound(ts[1..], depth + 1, c);
    } else if ts != [] {
      assert ProperToken(ts[0]);
    }
  }

  /**
   Whatever the query, what `parse` yields is flat, carries the query's one case
   flag on every content term, and has proper filter values.
   */
  lemma ParseIsCanonical(query: string)
    requires Parse(query).Ok?
    ensures Tokens(query).Ok? && Canonical(Parse(query).value, ResolveCase(Tokens(query).value))
  {
    var tokens := Tokens(query).value;
    var c := Context(ResolveCase(tokens), EofOf(tokens));
    TokensAreProper(query);
    OrExprIsSound(tokens, 0, c);
    var raw := OrExpr(tokens, 0, c).value.0;
    ProperLeaves(raw, c.caseSensitive);
    FinalizeShape(raw);
  }

  /**
   Normal form: printing the tree of a query and parsing it again yields the same
   tree, unless a value ends in a backslash; the nesting of the printed form
   decides, all else being equal.
   */
  lemma ReparseIsIdentity(query: string)
    requires Parse(query).Ok? && forall l <- LeavesOf(Parse(query).value) :: IsLeaf(l) ==> !EndsWithBackslash(LeafValue(l))
    ensures Tokens(query).Ok?
    ensures Parse(Print(Parse(query).value, ResolveCase(Tokens(query).value))) == Parse(query)
      <==> Nesting(Parse(query).value) <= MAX_DEPTH
  {
    ParseIsCanonical(query);
    hide Parse, Tokens, Print, ResolveCase, Flat, LeavesOf, EndsWithBackslash, Nesting;
    ParseInvertsPrint(Parse(query).value, ResolveCase(Tokens(query).value));
  }

  /** The only thing left behind a whole query is an unmatched closing parenthesis. */
  lemma LeftoverIsParenthesis(query: string)
    requires Tokens(query).Ok? && Tokens(query).value != []
    ensures var tokens := Tokens(query).value;
      var whole := OrExpr(tokens, 0, Context(ResolveCase(tokens), EofOf(tokens)));
      whole.Ok? && whole.value.1 != [] ==>
        Parse(query) == Err(QueryParseError("unexpected ')'", whole.value.1[0].position))
  {
    var tokens := Tokens(query).value;
    TokensAreProper(query);
    OrExprIsSound(tokens, 0, Context(ResolveCase(tokens), EofOf(tokens)));
  }
}
