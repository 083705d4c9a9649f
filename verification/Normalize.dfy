/** Normalisation of the parse tree, and `parse` itself (app/query/parser.py). */
module Normalize {
  import opened Wrappers
  import opened QueryAst
  import opened Scanner
  import opened Parser

  // ------------------------------------------------------------------ flattening and collapsing

  /** Splice the children of nested conjunctions (`isOr`: disjunctions) into their parent. */
  function Flatten(children: seq<Node>, isOr: bool): seq<Node>
    decreases |children|
  {
    if children == [] then []
    else
      var n := |children| - 1;
      Flatten(children[..n], isOr) + Spliced(children[n], isOr)
  }

  function Spliced(child: Node, isOr: bool): seq<Node> {
    if isOr && child.Or? then child.children
    else if !isOr && child.And? then child.children
    else [child]
  }

  method FlattenAll(children: seq<Node>, isOr: bool) returns (out: seq<Node>)
    ensures out == Flatten(children, isOr)
  {
    out := [];
    for i := 0 to |children|
      invariant out == Flatten(children[..i], isOr)
    {
      assert children[..i + 1][..i] == children[..i];
      if (isOr && children[i].Or?) || (!isOr && children[i].And?) {
        out := out + children[i].children;
      } else {
        out := out + [children[i]];
      }
    }
    assert children[..|children|] == children;
  }

  /** No term, one term, or an operator over at least two. */
  function Collapse(kids: seq<Node>, isOr: bool): Option<Node> {
    if kids == [] then None
    else if |kids| == 1 then Some(kids[0])
    else if isOr then Some(Or(Flatten(kids, true)))
    else Some(And(Flatten(kids, false)))
  }

  function Finalize(raw: Raw): Result<Option<Node>, QueryParseError> {
    match raw
    case CaseMarker => Ok(None)
    case Term(n) => Ok(Some(n))
    case RawNot(child, position) =>
      (match Finalize(child)
       case Err(e) => Err(e)
       case Ok(None) => Err(QueryParseError("negation has no term to negate", position))
       case Ok(Some(n)) => Ok(Some(Not(n))))
    case RawAnd(children) =>
      (match Kids(children) case Err(e) => Err(e) case Ok(kids) => Ok(Collapse(kids, false)))
    case RawOr(children) =>
      (match Kids(children) case Err(e) => Err(e) case Ok(kids) => Ok(Collapse(kids, true)))
  }

  /** The children that carry a term, in order; the first error wins. */
  function Kids(children: seq<Raw>): Result<seq<Node>, QueryParseError> {
    if children == [] then Ok([])
    else
      match Finalize(children[0])
      case Err(e) => Err(e)
      case Ok(first) =>
        match Kids(children[1..])
        case Err(e) => Err(e)
        case Ok(more) => Ok(Listed(first) + more)
  }

  function Listed(n: Option<Node>): seq<Node> {
    if n.Some? then [n.value] else []
  }

  // ------------------------------------------------------------------ leaves and shape

  function LeavesOf(n: Node): seq<Node> {
    match n
    case Not(child) => LeavesOf(child)
    case And(children) => LeavesOfAll(children)
    case Or(children) => LeavesOfAll(children)
    case _ => [n]
  }

  function LeavesOfAll(ns: seq<Node>): seq<Node> {
    if ns == [] then [] else LeavesOf(ns[0]) + LeavesOfAll(ns[1..])
  }

  /** The terms of a parse tree, left to right. */
  function RawLeaves(raw: Raw): seq<Node> {
    match raw
    case CaseMarker => []
    case Term(n) => [n]
    case RawNot(child, _) => RawLeaves(child)
    case RawAnd(children) => RawLeavesAll(children)
    case RawOr(children) => RawLeavesAll(children)
  }

  function RawLeavesAll(raws: seq<Raw>): seq<Node> {
    if raws == [] then [] else RawLeaves(raws[0]) + RawLeavesAll(raws[1..])
  }

  /** A tree as the parser builds it: terms are leaves. */
  predicate Grown(raw: Raw) {
    match raw
    case CaseMarker => true
    case Term(n) => IsLeaf(n)
    case RawNot(child, _) => Grown(child)
    case RawAnd(children) => forall c <- children :: Grown(c)
    case RawOr(children) => forall c <- children :: Grown(c)
  }

  /** Some negation has no term under it. */
  predicate NegatesNothing(raw: Raw) {
    match raw
    case CaseMarker => false
    case Term(_) => false
    case RawNot(child, _) => RawLeaves(child) == [] || NegatesNothing(child)
    case RawAnd(children) => exists c <- children :: NegatesNothing(c)
    case RawOr(children) => exists c <- children :: NegatesNothing(c)
  }

  /** At least two children under each operator, and none of them the same operator again. */
  predicate Flat(n: Node) {
    match n
    case Not(child) => Flat(child)
    case And(children) => |children| >= 2 && forall c <- children :: !c.And? && Flat(c)
    case Or(children) => |children| >= 2 && forall c <- children :: !c.Or? && Flat(c)
    case _ => true
  }

  predicate AllFlat(ns: seq<Node>) {
    forall n <- ns :: Flat(n)
  }

  lemma {:induction false} LeavesConcat(a: seq<Node>, b: seq<Node>)
    ensures LeavesOfAll(a + b) == LeavesOfAll(a) + LeavesOfAll(b)
    decreases |a|
  {
    if a == [] {
      assert a + b == b;
    } else {
      LeavesConcat(a[1..], b);
      assert (a + b)[1..] == a[1..] + b;
    }
  }

  lemma OneLeafList(n: Node)
    ensures LeavesOfAll([n]) == LeavesOf(n)
  {
    assert [n][1..] == [];
  }

  lemma {:induction false} FlattenKeepsLeaves(children: seq<Node>, isOr: bool)
    ensures LeavesOfAll(Flatten(children, isOr)) == LeavesOfAll(children)
    decreases |children|
  {
    if children != [] {
      var n := |children| - 1;
      FlattenKeepsLeaves(children[..n], isOr);
      LeavesConcat(Flatten(children[..n], isOr), Spliced(children[n], isOr));
      LeavesConcat(children[..n], [children[n]]);
      OneLeafList(children[n]);
      assert children == children[..n] + [children[n]];
    }
  }

  predicate IsOperator(n: Node, isOr: bool) {
    if isOr then n.Or? else n.And?
  }

  lemma {:induction false} FlattenIsFlat(children: seq<Node>, isOr: bool)
    requires AllFlat(children)
    ensures |Flatten(children, isOr)| >= |children|
    ensures forall c <- Flatten(children, isOr) :: !IsOperator(c, isOr) && Flat(c)
    decreases |children|
  {
    if children != [] {
      var n := |children| - 1;
      FlattenIsFlat(children[..n], isOr);
      assert Flat(children[n]);
      assert |Spliced(children[n], isOr)| >= 1;
    }
  }

  lemma CollapseKeeps(kids: seq<Node>, isOr: bool)
    requires AllFlat(kids)
    ensures kids == [] <==> Collapse(kids, isOr) == None
    ensures kids != [] ==>
      Flat(Collapse(kids, isOr).value) && LeavesOf(Collapse(kids, isOr).value) == LeavesOfAll(kids)
  {
    if |kids| == 1 {
      OneLeafList(kids[0]);
      assert kids == [kids[0]];
    } else {
      FlattenIsFlat(kids, isOr);
      FlattenKeepsLeaves(kids, isOr);
    }
  }

  lemma {:induction false} LeafOfEach(n: Node)
    requires Flat(n)
    ensures LeavesOf(n) != []
  {
    match n
    case Not(child) => LeafOfEach(child);
    case And(children) => LeafOfEach(children[0]);
    case Or(children) => LeafOfEach(children[0]);
    case _ =>
  }

  /**
   Normalisation keeps the terms and their order, puts no operator directly
   under itself, gives each operator two children or more, finds no term exactly
   where the tree has none, and fails exactly on a negation of nothing.
   */
  lemma {:induction false} FinalizeShape(raw: Raw)
    requires Grown(raw)
    ensures Finalize(raw).Err? <==> NegatesNothing(raw)
    ensures Finalize(raw).Ok? ==> (Finalize(raw).value == None <==> RawLeaves(raw) == [])
    ensures Finalize(raw).Ok? && Finalize(raw).value.Some? ==>
      Flat(Finalize(raw).value.value) && LeavesOf(Finalize(raw).value.value) == RawLeaves(raw)
    decreases raw
  {
    match raw
    case CaseMarker =>
    case Term(n) =>
    case RawNot(child, _) =>
      FinalizeShape(child);
    case RawAnd(children) =>
      KidsShape(children);
      if Kids(children).Ok? { CollapseKeeps(Kids(children).value, false); }
    case RawOr(children) =>
      KidsShape(children);
      if Kids(children).Ok? { CollapseKeeps(Kids(children).value, true); }
  }

  lemma {:induction false} KidsShape(children: seq<Raw>)
    requires forall c <- children :: Grown(c)
    ensures Kids(children).Err? <==> exists c <- children :: NegatesNothing(c)
    ensures Kids(children).Ok? ==> AllFlat(Kids(children).value)
    ensures Kids(children).Ok? ==> LeavesOfAll(Kids(children).value) == RawLeavesAll(children)
    ensures Kids(children).Ok? ==> (Kids(children).value == [] <==> RawLeavesAll(children) == [])
    decreases children
  {
    if children != [] {
      FinalizeShape(children[0]);
      KidsShape(children[1..]);
      assert children == [children[0]] + children[1..];
      if Kids(children).Ok? {
        var first := Finalize(children[0]).value;
        LeavesConcat(Listed(first), Kids(children[1..]).value);
        if first.Some? {
          OneLeafList(first.value);
          LeafOfEach(first.value);
        }
      }
    }
  }

  // ------------------------------------------------------------------ meaning

  /** SQL's three truth values. */
  datatype Truth = False | Unknown | True

  function Negation(t: Truth): Truth {
    match t case False => True case Unknown => Unknown case True => False
  }

  function Both(a: Truth, b: Truth): Truth {
    if a == False || b == False then False else if a == True && b == True then True else Unknown
  }

  function Either(a: Truth, b: Truth): Truth {
    if a == True || b == True then True else if a == False && b == False then False else Unknown
  }

  function Combine(a: Truth, b: Truth, isOr: bool): Truth {
    if isOr then Either(a, b) else Both(a, b)
  }

  /** The value of an operator without operands. */
  function Neutral(isOr: bool): Truth {
    if isOr then False else True
  }

  /** The value of a tree when each leaf has the value `leaf` gives it. */
  function Value(n: Node, leaf: Node -> Truth): Truth {
    match n
    case Not(child) => Negation(Value(child, leaf))
    case And(children) => ValueAll(children, leaf, false)
    case Or(children) => ValueAll(children, leaf, true)
    case _ => leaf(n)
  }

  function ValueAll(ns: seq<Node>, leaf: Node -> Truth, isOr: bool): Truth {
    if ns == [] then Neutral(isOr) else Combine(Value(ns[0], leaf), ValueAll(ns[1..], leaf, isOr), isOr)
  }

  /** The value of a parse tree with its case operands erased; none if nothing is left. */
  function RawValue(raw: Raw, leaf: Node -> Truth): Option<Truth> {
    match raw
    case CaseMarker => None
    case Term(n) => Some(leaf(n))
    case RawNot(child, _) => (match RawValue(child, leaf) case None => None case Some(t) => Some(Negation(t)))
    case RawAnd(children) => RawValueAll(children, leaf, false)
    case RawOr(children) => RawValueAll(children, leaf, true)
  }

  function RawValueAll(raws: seq<Raw>, leaf: Node -> Truth, isOr: bool): Option<Truth> {
    if raws == [] then None
    else Erased(RawValue(raws[0], leaf), RawValueAll(raws[1..], leaf, isOr), isOr)
  }

  function Erased(a: Option<Truth>, b: Option<Truth>, isOr: bool): Option<Truth> {
    if a.None? then b else if b.None? then a else Some(Combine(a.value, b.value, isOr))
  }

  lemma {:induction false} ValueConcat(a: seq<Node>, b: seq<Node>, leaf: Node -> Truth, isOr: bool)
    ensures ValueAll(a + b, leaf, isOr) == Combine(ValueAll(a, leaf, isOr), ValueAll(b, leaf, isOr), isOr)
    decreases |a|
  {
    if a == [] {
      assert a + b == b;
    } else {
      ValueConcat(a[1..], b, leaf, isOr);
      assert (a + b)[1..] == a[1..] + b;
    }
  }

  lemma OneValueList(n: Node, leaf: Node -> Truth, isOr: bool)
    ensures ValueAll([n], leaf, isOr) == Value(n, leaf)
  {
    assert [n][1..] == [];
  }

  lemma SplicedKeepsValue(child: Node, leaf: Node -> Truth, isOr: bool)
    ensures ValueAll(Spliced(child, isOr), leaf, isOr) == Value(child, leaf)
  {
    if !IsOperator(child, isOr) {
      OneValueList(child, leaf, isOr);
    }
  }

  lemma {:induction false} FlattenKeepsValue(children: seq<Node>, leaf: Node -> Truth, isOr: bool)
    ensures ValueAll(Flatten(children, isOr), leaf, isOr) == ValueAll(children, leaf, isOr)
    decreases |children|
  {
    hide Value, ValueAll, Combine, Spliced;
    if children != [] {
      var n := |children| - 1;
      FlattenKeepsValue(children[..n], leaf, isOr);
      ValueConcat(Flatten(children[..n], isOr), Spliced(children[n], isOr), leaf, isOr);
      ValueConcat(children[..n], [children[n]], leaf, isOr);
      SplicedKeepsValue(children[n], leaf, isOr);
      OneValueList(children[n], leaf, isOr);
      assert children == children[..n] + [children[n]];
    }
  }

  /** Normalisation keeps the three-valued meaning, whatever the leaves mean. */
  lemma {:induction false} FinalizeKeepsValue(raw: Raw, leaf: Node -> Truth)
    requires Grown(raw) && Finalize(raw).Ok?
    ensures RawValue(raw, leaf) ==
      match Finalize(raw).value case None => None case Some(n) => Some(Value(n, leaf))
    decreases raw
  {
    match raw
    case CaseMarker =>
    case Term(n) =>
    case RawNot(child, _) =>
      FinalizeKeepsValue(child, leaf);
    case RawAnd(children) =>
      KidsKeepValue(children, leaf, false);
      CollapseKeepsValue(Kids(children).value, leaf, false);
    case RawOr(children) =>
      KidsKeepValue(children, leaf, true);
      CollapseKeepsValue(Kids(children).value, leaf, true);
  }

  lemma {:induction false} KidsKeepValue(children: seq<Raw>, leaf: Node -> Truth, isOr: bool)
    requires (forall c <- children :: Grown(c)) && Kids(children).Ok?
    ensures RawValueAll(children, leaf, isOr) ==
      if Kids(children).value == [] then None else Some(ValueAll(Kids(children).value, leaf, isOr))
    decreases children
  {
    if children != [] {
      FinalizeKeepsValue(children[0], leaf);
      KidsKeepValue(children[1..], leaf, isOr);
      var first, more := Finalize(children[0]).value, Kids(children[1..]).value;
      ValueConcat(Listed(first), more, leaf, isOr);
      if first.Some? {
        OneValueList(first.value, leaf, isOr);
        assert more == [] ==> [first.value] + more == [first.value];
      } else {
        assert [] + more == more;
      }
    }
  }

  lemma CollapseKeepsValue(kids: seq<Node>, leaf: Node -> Truth, isOr: bool)
    ensures kids != [] ==> Value(Collapse(kids, isOr).value, leaf) == ValueAll(kids, leaf, isOr)
  {
    if |kids| == 1 {
      assert kids == [kids[0]];
      OneValueList(kids[0], leaf, isOr);
    } else {
      FlattenKeepsValue(kids, leaf, isOr);
    }
  }

  // ------------------------------------------------------------------ parse

  function Parse(query: string): Result<Node, QueryParseError> {
    match Tokens(query)
    case Err(e) => Err(e)
    case Ok(tokens) => if tokens == [] then Err(QueryParseError("empty query", 0)) else ParseTokens(tokens)
  }

  function ParseTokens(tokens: seq<Token>): Result<Node, QueryParseError> {
    match OrExpr(tokens, 0, Context(ResolveCase(tokens), EofOf(tokens)))
    case Err(e) => Err(e)
    case Ok((raw, rest)) =>
      if rest != [] then
        Err(QueryParseError(if rest[0].kind == RPAREN then "unexpected ')'" else "unexpected token", rest[0].position))
      else Finished(Finalize(raw))
  }

  function Finished(final: Result<Option<Node>, QueryParseError>): Result<Node, QueryParseError> {
    match final
    case Err(e) => Err(e)
    case Ok(None) => Err(QueryParseError("empty query", 0))
    case Ok(Some(n)) => Ok(n)
  }

  method ParseQuery(query: string) returns (r: Result<Node, QueryParseError>)
    ensures r == Parse(query)
  {
    hide OrExpr, ResolveCase, EofOf, Scan;
    var tokens :- Tokenize(query);
    if tokens == [] {
      return Err(QueryParseError("empty query", 0));
    }
    var caseSensitive := ResolveCaseFlag(tokens);
    var parser := new Parser(tokens, caseSensitive);
    assert parser.Rest() == tokens;
    var raw :- parser.ParseOr();
    if parser.pos < |tokens| {
      var leftover := tokens[parser.pos];
      var message := if leftover.kind == RPAREN then "unexpected ')'" else "unexpected token";
      return Err(QueryParseError(message, leftover.position));
    }
    return Finished(Finalize(raw));
  }
}
