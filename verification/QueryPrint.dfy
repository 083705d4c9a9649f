/**
 A canonical printing of query trees: fields quoted, operands in parentheses.
 Scanning what is printed gives the tokens of the tree's shape.
 */
module QueryPrint {
  import opened Wrappers
  import opened QueryAst
  import opened Scanner
  import opened ScanLocality
  import opened Lexemes
  import opened Parser
  import opened Normalize

  // ------------------------------------------------------------------ delimited literals

  /** Put a backslash before each delimiter; nothing else needs one. */
  function Escape(v: string, delimiter: char): string
    decreases |v|
  {
    if v == "" then ""
    else (if v[0] == delimiter then ['\\', delimiter] else [v[0]]) + Escape(v[1..], delimiter)
  }

  function Quoted(v: string, delimiter: char): string {
    [delimiter] + Escape(v, delimiter) + [delimiter]
  }

  predicate EndsWithBackslash(v: string) {
    v != "" && v[|v| - 1] == '\\'
  }

  lemma EscapeHead(v: string, delimiter: char)
    requires v != "" && delimiter != '\\'
    ensures Escape(v, delimiter)[0] != delimiter
  {
  }

  lemma EscapedHead(delimiter: char, tail: string)
    ensures ReadBody(['\\', delimiter] + tail, delimiter) == Behind([delimiter], 2, ReadBody(tail, delimiter))
  {
    var text := ['\\', delimiter] + tail;
    assert text[2..] == tail;
  }

  lemma PlainHead(c: char, delimiter: char, tail: string)
    requires c != delimiter && tail != "" && (c == '\\' ==> tail[0] != delimiter)
    ensures ReadBody([c] + tail, delimiter) == Behind([c], 1, ReadBody(tail, delimiter))
  {
    var text := [c] + tail;
    assert text[1..] == tail;
  }

  /** One character of the value is read back, unless it is a backslash right before the closing delimiter. */
  lemma ReadBodyOfEscape(v: string, delimiter: char, rest: string)
    requires v != "" && delimiter != '\\' && v != "\\"
    ensures ReadBody(Escape(v, delimiter) + [delimiter] + rest, delimiter) ==
      Behind([v[0]], if v[0] == delimiter then 2 else 1, ReadBody(Escape(v[1..], delimiter) + [delimiter] + rest, delimiter))
  {
    hide ReadBody;
    var tail := Escape(v[1..], delimiter) + [delimiter] + rest;
    if v[0] == delimiter {
      assert Escape(v, delimiter) + [delimiter] + rest == ['\\', delimiter] + tail;
      hide *;
      EscapedHead(delimiter, tail);
    } else {
      assert Escape(v, delimiter) + [delimiter] + rest == [v[0]] + tail;
      if v[1..] != "" {
        EscapeHead(v[1..], delimiter);
      } else {
        assert v == [v[0]];
      }
      PlainHead(v[0], delimiter, tail);
    }
  }

  /**
   A literal reads back as the value it was printed from exactly when the value
   does not end in a backslash.
   */
  lemma {:induction false} LiteralReadsBack(v: string, delimiter: char, rest: string)
    requires delimiter != '\\'
    ensures ReadBody(Escape(v, delimiter) + [delimiter] + rest, delimiter) == Some((v, |Escape(v, delimiter)| + 1))
      <==> !EndsWithBackslash(v)
    decreases |v|
  {
    if v == "" {
      assert Escape(v, delimiter) + [delimiter] + rest == [delimiter] + rest;
    } else if v == "\\" {
      LoneBackslash(delimiter, rest);
    } else {
      hide ReadBody;
      ReadBodyOfEscape(v, delimiter, rest);
      LiteralReadsBack(v[1..], delimiter, rest);
      assert |Escape(v, delimiter)| == |Escape(v[1..], delimiter)| + if v[0] == delimiter then 2 else 1;
      hide *;
      BehindIs(v, if v[0] == delimiter then 2 else 1, ReadBody(Escape(v[1..], delimiter) + [delimiter] + rest, delimiter),
        |Escape(v[1..], delimiter)| + 1);
    }
  }

  lemma BehindIs(v: string, n: nat, inner: Option<(string, nat)>, m: nat)
    requires v != ""
    ensures Behind([v[0]], n, inner) == Some((v, n + m)) <==> inner == Some((v[1..], m))
  {
    assert v == [v[0]] + v[1..];
    if inner.Some? && [v[0]] + inner.value.0 == v {
      assert ([v[0]] + inner.value.0)[1..] == inner.value.0;
    }
  }

  /** A value of one backslash swallows its own closing delimiter. */
  lemma LoneBackslash(delimiter: char, rest: string)
    requires delimiter != '\\'
    ensures ReadBody(Escape("\\", delimiter) + [delimiter] + rest, delimiter) !=
      Some(("\\", |Escape("\\", delimiter)| + 1))
  {
    assert "\\"[1..] == "" && Escape("\\", delimiter) == "\\";
    assert "\\" + [delimiter] + rest == ['\\', delimiter] + rest;
    EscapedHead(delimiter, rest);
    var inner := ReadBody(rest, delimiter);
    assert inner.Some? ==> ([delimiter] + inner.value.0)[0] == delimiter;
  }

  lemma QuotedReadsBack(v: string, delimiter: char, rest: string, message: string)
    requires delimiter != '\\' && !EndsWithBackslash(v)
    ensures ReadLiteral(Quoted(v, delimiter) + rest, delimiter, message) == Ok((v, |Quoted(v, delimiter)|))
  {
    hide ReadBody, Escape;
    LiteralReadsBack(v, delimiter, rest);
    assert (Quoted(v, delimiter) + rest)[1..] == Escape(v, delimiter) + [delimiter] + rest;
  }

  // ------------------------------------------------------------------ printing

  function LeafText(n: Node): string
    requires IsLeaf(n)
  {
    match n
    case Substring(v, _) => Quoted(v, '"')
    case Regex(p, _) => Quoted(p, '/')
    case RepoFilter(v) => "repo:" + Quoted(v, '"')
    case PathFilter(v) => "file:" + Quoted(v, '"')
    case LangFilter(v) => "lang:" + Quoted(v, '"')
    case SymbolFilter(v) => "sym:" + Quoted(v, '"')
    case BranchFilter(v) => "branch:" + Quoted(v, '"')
    case CommitFilter(v) => "commit:" + Quoted(v, '"')
  }

  function LeafValue(n: Node): string
    requires IsLeaf(n)
  {
    match n
    case Substring(v, _) => v
    case Regex(p, _) => p
    case RepoFilter(v) => v
    case PathFilter(v) => v
    case LangFilter(v) => v
    case SymbolFilter(v) => v
    case BranchFilter(v) => v
    case CommitFilter(v) => v
  }

  /** Every leaf delimited, every operator in parentheses. */
  function PrintNode(n: Node): (text: string)
    ensures text != "" && !IsSpace(text[0]) && text[0] != ')'
  {
    match n
    case Not(child) => "-" + PrintNode(child)
    case And(children) => "(" + PrintAll(children, false) + ")"
    case Or(children) => "(" + PrintAll(children, true) + ")"
    case _ => LeafText(n)
  }

  function PrintAll(ns: seq<Node>, isOr: bool): string {
    if ns == [] then "" else PrintNode(ns[0]) + PrintTail(ns[1..], isOr)
  }

  function PrintTail(ns: seq<Node>, isOr: bool): string {
    if ns == [] then "" else Separator(isOr) + PrintNode(ns[0]) + PrintTail(ns[1..], isOr)
  }

  function Separator(isOr: bool): string {
    if isOr then " or " else " "
  }

  function Print(n: Node, caseSensitive: bool): string {
    (if caseSensitive then "case:yes " else "") + PrintNode(n)
  }

  // ------------------------------------------------------------------ the tokens of a printed tree

  function LeafKind(n: Node): TokenKind
    requires IsLeaf(n)
  {
    match n
    case Substring(_, _) => SUBSTRING
    case Regex(_, _) => REGEX
    case RepoFilter(_) => REPO
    case PathFilter(_) => PATH
    case LangFilter(_) => LANG
    case SymbolFilter(_) => SYMBOL
    case BranchFilter(_) => BRANCH
    case CommitFilter(_) => COMMIT
  }

  function ShapeOf(n: Node): (shape: seq<Shape>)
    ensures shape != []
  {
    match n
    case Not(child) => [(NOT, "-")] + ShapeOf(child)
    case And(children) => [(LPAREN, "(")] + (ShapeAll(children, false) + [(RPAREN, ")")])
    case Or(children) => [(LPAREN, "(")] + (ShapeAll(children, true) + [(RPAREN, ")")])
    case _ => [(LeafKind(n), LeafValue(n))]
  }

  function ShapeAll(ns: seq<Node>, isOr: bool): seq<Shape> {
    if ns == [] then [] else ShapeOf(ns[0]) + ShapeTail(ns[1..], isOr)
  }

  function ShapeTail(ns: seq<Node>, isOr: bool): seq<Shape> {
    if ns == [] then [] else SeparatorShape(isOr) + (ShapeOf(ns[0]) + ShapeTail(ns[1..], isOr))
  }

  function SeparatorShape(isOr: bool): seq<Shape> {
    if isOr then [(OR, "or")] else []
  }

  predicate ProperLeaf(n: Node, caseSensitive: bool) {
    match n
    case Substring(_, c) => c == caseSensitive
    case Regex(_, c) => c == caseSensitive
    case CommitFilter(v) => IsCommitHash(v)
    case Not(_) => false
    case And(_) => false
    case Or(_) => false
    case _ => LeafValue(n) != ""
  }

  /** A leaf whose printed literal closes where it should. */
  predicate Printable(n: Node, caseSensitive: bool) {
    ProperLeaf(n, caseSensitive) && !EndsWithBackslash(LeafValue(n))
  }

  predicate AllPrintable(ns: seq<Node>, caseSensitive: bool) {
    forall n <- ns :: Printable(n, caseSensitive)
  }

  /** In front of `rest`, `text` scans to the tokens of `shape`. */
  predicate Reads(text: string, rest: string, shape: seq<Shape>) {
    Shapes(text + rest) == Append(shape, Shapes(rest))
  }

  lemma AppendTwice(a: seq<Shape>, b: seq<Shape>, tail: Option<seq<Shape>>)
    ensures Append(a, Append(b, tail)) == Append(a + b, tail)
  {
    assert tail.Some? ==> a + (b + tail.value) == (a + b) + tail.value;
  }

  lemma ReadsConcat(a: string, b: string, rest: string, shapeA: seq<Shape>, shapeB: seq<Shape>)
    requires Reads(a, b + rest, shapeA) && Reads(b, rest, shapeB)
    ensures Reads(a + b, rest, shapeA + shapeB)
  {
    hide Shapes, Append;
    assert (a + b) + rest == a + (b + rest);
    AppendTwice(shapeA, shapeB, Shapes(rest));
  }

  lemma ReadsNothing(rest: string)
    ensures Reads("", rest, [])
  {
    assert "" + rest == rest;
    AppendNothing(Shapes(rest));
  }

  lemma ReadsSpace(rest: string)
    ensures Reads(" ", rest, [])
  {
    assert (" " + rest)[1..] == rest;
    AppendNothing(Shapes(rest));
  }

  lemma ReadsLexeme(text: string, rest: string, kind: TokenKind, value: string)
    requires text != "" && !IsSpace(text[0])
    requires NextLexeme(text + rest) == Ok(Lexeme(kind, value, |text|))
    ensures Reads(text, rest, [(kind, value)])
  {
    hide NextLexeme;
    assert (text + rest)[|text|..] == rest;
  }

  lemma {:induction false} LowerHex(v: string)
    requires forall c <- v :: IsHex(c)
    ensures Lowered(v) == v
    decreases |v|
  {
    if v != "" {
      LowerHex(v[1..]);
      assert v[0] in v;
    }
  }

  function FieldName(n: Node): (name: string)
    requires IsLeaf(n) && !n.Substring? && !n.Regex?
    ensures name != "" && forall c <- name :: IsLower(c)
  {
    match n
    case RepoFilter(_) => "repo"
    case PathFilter(_) => "file"
    case LangFilter(_) => "lang"
    case SymbolFilter(_) => "sym"
    case BranchFilter(_) => "branch"
    case CommitFilter(_) => "commit"
  }

  lemma FieldText(n: Node)
    requires IsLeaf(n) && !n.Substring? && !n.Regex?
    ensures LeafText(n) == FieldName(n) + ":" + Quoted(LeafValue(n), '"')
  {
    hide Quoted;
    assert "repo:" == "repo" + ":" && "file:" == "file" + ":" && "lang:" == "lang" + ":" && "sym:" == "sym" + ":";
    assert "branch:" == "branch" + ":" && "commit:" == "commit" + ":";
  }

  lemma FieldIsKnown(n: Node)
    requires IsLeaf(n) && !n.Substring? && !n.Regex?
    ensures KnownField(FieldName(n)) && FieldName(n) !in RESERVED
    ensures FieldName(n) in FIELD_KINDS && FIELD_KINDS[FieldName(n)] == LeafKind(n)
    ensures FieldName(n) != "case" && (FieldName(n) == "commit" <==> n.CommitFilter?)
  {
  }

  lemma FieldEmits(n: Node, caseSensitive: bool)
    requires IsLeaf(n) && !n.Substring? && !n.Regex? && ProperLeaf(n, caseSensitive)
    ensures EmitField(FieldName(n), LeafValue(n)) == Ok((LeafKind(n), LeafValue(n)))
  {
    FieldIsKnown(n);
    hide FieldName, KnownField, Lowered;
    if n.CommitFilter? {
      LowerHex(n.commit);
    }
  }

  /** A quoted field reads back, whatever follows it. */
  lemma FieldReads(name: string, v: string, rest: string, kind: TokenKind)
    requires name != "" && (forall c <- name :: IsLower(c)) && KnownField(name)
    requires EmitField(name, v) == Ok((kind, v)) && !EndsWithBackslash(v)
    ensures NextLexeme(name + ":" + Quoted(v, '"') + rest) == Ok(Lexeme(kind, v, |name + ":" + Quoted(v, '"')|))
  {
    hide *;
    var value := Quoted(v, '"') + rest;
    assert name + ":" + Quoted(v, '"') + rest == name + ":" + value;
    FieldIsNext(name, value);
    QuotedReadsBack(v, '"', rest, BAD_QUOTE);
    QuoteStarts(v, rest);
    QuotedField(name, v, value, kind, |Quoted(v, '"')|);
  }

  lemma QuotedField(name: string, v: string, value: string, kind: TokenKind, n: nat)
    requires value != "" && value[0] == '"' && ReadLiteral(value, '"', BAD_QUOTE) == Ok((v, n))
    requires EmitField(name, v) == Ok((kind, v))
    ensures FieldFrom(name, ReadFieldValue(value)) == Ok(Lexeme(kind, v, |name| + 1 + n))
  {
    hide ReadLiteral, EmitField;
  }

  lemma QuoteStarts(v: string, rest: string)
    ensures (Quoted(v, '"') + rest)[0] == '"'
  {
  }

  lemma LeafReads(n: Node, caseSensitive: bool, rest: string)
    requires IsLeaf(n) && Printable(n, caseSensitive)
    ensures Reads(LeafText(n), rest, ShapeOf(n))
  {
    hide Reads, ReadLiteral, Escape, EmitField, KnownField, EndsWithBackslash;
    var v := LeafValue(n);
    if n.Substring? {
      QuotedReadsBack(v, '"', rest, BAD_QUOTE);
    } else if n.Regex? {
      QuotedReadsBack(v, '/', rest, BAD_REGEX);
    } else {
      hide LeafText, NextLexeme;
      FieldText(n);
      FieldIsKnown(n);
      FieldEmits(n, caseSensitive);
      FieldReads(FieldName(n), v, rest, LeafKind(n));
    }
    ReadsLexeme(LeafText(n), rest, LeafKind(n), v);
  }

  lemma SeparatorReads(isOr: bool, rest: string)
    ensures Reads(Separator(isOr), rest, SeparatorShape(isOr))
  {
    ReadsSpace(rest);
    if isOr {
      OrWord(rest);
      ReadsLexeme("or", " " + rest, OR, "or");
      hide Reads;
      ReadsConcat("or", " ", rest, [(OR, "or")], []);
      assert "or" + " " == "or " && [(OR, "or")] + [] == [(OR, "or")];
      ReadsSpace("or " + rest);
      ReadsConcat(" ", "or ", rest, [], [(OR, "or")]);
      assert " " + "or " == " or " && [] + [(OR, "or")] == [(OR, "or")];
    }
  }

  lemma LoweredOr()
    ensures Lowered("or") == "or"
  {
    assert "or"[1..] == "r" && "r"[1..] == "";
  }

  lemma OrWord(rest: string)
    ensures NextLexeme("or" + (" " + rest)) == Ok(Lexeme(OR, "or", 2))
  {
    hide BareLength, PrefixLength, Lowered;
    var text := "or" + (" " + rest);
    BareLengthIs(text, 2);
    PrefixLengthIs(text, 2);
    LoweredOr();
    assert text[..2] == "or";
  }

  /** Scanning a printed tree yields the tokens of its shape, whatever follows it. */
  lemma {:induction false} NodeReads(n: Node, caseSensitive: bool, rest: string)
    requires AllPrintable(LeavesOf(n), caseSensitive)
    ensures Reads(PrintNode(n), rest, ShapeOf(n))
    decreases n, 1
  {
    match n
    case Not(child) =>
      ReadsLexeme("-", PrintNode(child) + rest, NOT, "-");
      NodeReads(child, caseSensitive, rest);
      hide Reads;
      ReadsConcat("-", PrintNode(child), rest, [(NOT, "-")], ShapeOf(child));
    case And(children) =>
      GroupReads(children, false, caseSensitive, rest);
    case Or(children) =>
      GroupReads(children, true, caseSensitive, rest);
    case _ =>
      assert n in LeavesOf(n);
      LeafReads(n, caseSensitive, rest);
  }

  lemma {:induction false} GroupReads(ns: seq<Node>, isOr: bool, caseSensitive: bool, rest: string)
    requires AllPrintable(LeavesOfAll(ns), caseSensitive)
    ensures Reads("(" + PrintAll(ns, isOr) + ")", rest, [(LPAREN, "(")] + (ShapeAll(ns, isOr) + [(RPAREN, ")")]))
    decreases ns, 1
  {
    hide PrintAll, ShapeAll, AllPrintable, LeavesOfAll;
    var body := PrintAll(ns, isOr);
    ReadsLexeme("(", (body + ")") + rest, LPAREN, "(");
    ReadsLexeme(")", rest, RPAREN, ")");
    AllReads(ns, isOr, caseSensitive, ")" + rest);
    hide Reads;
    ReadsConcat(body, ")", rest, ShapeAll(ns, isOr), [(RPAREN, ")")]);
    ReadsConcat("(", body + ")", rest, [(LPAREN, "(")], ShapeAll(ns, isOr) + [(RPAREN, ")")]);
    assert "(" + body + ")" == "(" + (body + ")");
  }

  lemma PrintableParts(ns: seq<Node>, caseSensitive: bool)
    requires ns != [] && AllPrintable(LeavesOfAll(ns), caseSensitive)
    ensures AllPrintable(LeavesOf(ns[0]), caseSensitive) && AllPrintable(LeavesOfAll(ns[1..]), caseSensitive)
  {
    hide LeavesOf, Printable;
    assert forall n <- LeavesOf(ns[0]) :: n in LeavesOfAll(ns);
    assert forall n <- LeavesOfAll(ns[1..]) :: n in LeavesOfAll(ns);
  }

  lemma {:induction false} AllReads(ns: seq<Node>, isOr: bool, caseSensitive: bool, rest: string)
    requires AllPrintable(LeavesOfAll(ns), caseSensitive)
    ensures Reads(PrintAll(ns, isOr), rest, ShapeAll(ns, isOr))
    decreases ns, 0
  {
    hide Reads, LeavesOf, LeavesOfAll, AllPrintable, PrintNode, ShapeOf, PrintTail, ShapeTail;
    if ns == [] {
      ReadsNothing(rest);
    } else {
      PrintableParts(ns, caseSensitive);
      NodeReads(ns[0], caseSensitive, PrintTail(ns[1..], isOr) + rest);
      TailReads(ns[1..], isOr, caseSensitive, rest);
      ReadsConcat(PrintNode(ns[0]), PrintTail(ns[1..], isOr), rest, ShapeOf(ns[0]), ShapeTail(ns[1..], isOr));
    }
  }

  lemma {:induction false} TailReads(ns: seq<Node>, isOr: bool, caseSensitive: bool, rest: string)
    requires AllPrintable(LeavesOfAll(ns), caseSensitive)
    ensures Reads(PrintTail(ns, isOr), rest, ShapeTail(ns, isOr))
    decreases ns, 0
  {
    hide Reads, LeavesOf, LeavesOfAll, AllPrintable, PrintNode, ShapeOf, Separator, SeparatorShape;
    if ns == [] {
      ReadsNothing(rest);
    } else {
      var sep, first, more := Separator(isOr), PrintNode(ns[0]), PrintTail(ns[1..], isOr);
      PrintableParts(ns, caseSensitive);
      SeparatorReads(isOr, (first + more) + rest);
      NodeReads(ns[0], caseSensitive, more + rest);
      TailReads(ns[1..], isOr, caseSensitive, rest);
      ReadsThree(sep, first, more, rest, SeparatorShape(isOr), ShapeOf(ns[0]), ShapeTail(ns[1..], isOr));
    }
  }

  lemma ReadsThree(a: string, b: string, c: string, rest: string,
                   shapeA: seq<Shape>, shapeB: seq<Shape>, shapeC: seq<Shape>)
    requires Reads(a, (b + c) + rest, shapeA) && Reads(b, c + rest, shapeB) && Reads(c, rest, shapeC)
    ensures Reads(a + b + c, rest, shapeA + (shapeB + shapeC))
  {
    hide Reads;
    ReadsConcat(b, c, rest, shapeB, shapeC);
    ReadsConcat(a, b + c, rest, shapeA, shapeB + shapeC);
    assert a + b + c == a + (b + c);
  }
}
