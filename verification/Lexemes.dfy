/**
 The token list of a text without its columns, and how it composes: what the
 round trip and the semantic split both need about text put together.
 */
module Lexemes {
  import opened Wrappers
  import opened QueryAst
  import opened Scanner
  import opened ScanLocality

  type Shape = (TokenKind, string)

  /** The kinds and values of the tokens of a text, if it scans. */
  function Shapes(s: string): Option<seq<Shape>>
    decreases |s|
  {
    if s == "" then Some([])
    else if IsSpace(s[0]) then Shapes(s[1..])
    else
      match NextLexeme(s)
      case Err(_) => None
      case Ok(l) => Cons((l.kind, l.value), Shapes(s[l.length..]))
  }

  function Cons(head: Shape, tail: Option<seq<Shape>>): Option<seq<Shape>> {
    if tail.None? then None else Some([head] + tail.value)
  }

  function Append(front: seq<Shape>, back: Option<seq<Shape>>): Option<seq<Shape>> {
    if back.None? then None else Some(front + back.value)
  }

  predicate HasShapes(spans: seq<Spanned>, shapes: seq<Shape>) {
    |spans| == |shapes| &&
    forall i | 0 <= i < |spans| :: spans[i].token.kind == shapes[i].0 && spans[i].token.value == shapes[i].1
  }

  /** The columns add nothing else: a scan succeeds, and yields these kinds and values, wherever the text stands. */
  lemma {:induction false} ScanHasShapes(s: string, position: nat)
    ensures Scan(s, position).Ok? <==> Shapes(s).Some?
    ensures Scan(s, position).Ok? ==> HasShapes(Scan(s, position).value, Shapes(s).value)
    decreases |s|
  {
    if s != "" {
      if IsSpace(s[0]) {
        ScanHasShapes(s[1..], position + 1);
      } else if NextLexeme(s).Ok? {
        hide NextLexeme;
        var l := NextLexeme(s).value;
        ScanHasShapes(s[l.length..], position + l.length);
      }
    }
  }

  /** Text that cannot run on into what stands before it. */
  predicate Apart(tail: string) {
    tail == "" || IsSpace(tail[0])
  }

  /** A negation is never the last lexeme of a text. */
  lemma LexemeInFront(s: string, tail: string)
    requires s != "" && !IsSpace(s[0]) && NextLexeme(s).Ok? && Apart(tail)
    ensures NextLexeme(s + tail) == NextLexeme(s)
  {
    var n := NextLexeme(s).value.length;
    NotLast(s);
    hide NextLexeme;
    assert s + tail == s[..n] + (s[n..] + tail);
    LexemeIsLocal(s, s[n..] + tail);
  }

  lemma NotLast(s: string)
    requires s != "" && !IsSpace(s[0]) && NextLexeme(s).Ok?
    ensures NextLexeme(s).value.kind == NOT ==> NextLexeme(s).value.length == 1 < |s| && !IsSpace(s[1])
  {
    hide ReadLiteral, ReadFieldValue, KnownField, Lowered;
  }

  /** A text that scans keeps its tokens in front of a gap. */
  lemma {:induction false} ShapesConcat(s: string, tail: string)
    requires Shapes(s).Some? && Apart(tail)
    ensures Shapes(s + tail) == Append(Shapes(s).value, Shapes(tail))
    decreases |s|
  {
    hide NextLexeme;
    if s == "" {
      assert s + tail == tail;
      AppendNothing(Shapes(tail));
    } else if IsSpace(s[0]) {
      ShapesConcat(s[1..], tail);
      assert (s + tail)[1..] == s[1..] + tail;
    } else {
      var l := NextLexeme(s).value;
      LexemeInFront(s, tail);
      ShapesConcat(s[l.length..], tail);
      assert (s + tail)[l.length..] == s[l.length..] + tail;
      AppendCons((l.kind, l.value), Shapes(s[l.length..]).value, Shapes(tail));
    }
  }

  lemma SpaceInFront(s: string)
    ensures Shapes(" " + s) == Shapes(s)
  {
    assert (" " + s)[1..] == s;
  }

  lemma AppendNothing(back: Option<seq<Shape>>)
    ensures Append([], back) == back
  {
    assert back.Some? ==> [] + back.value == back.value;
  }

  lemma AppendCons(head: Shape, front: seq<Shape>, back: Option<seq<Shape>>)
    ensures Cons(head, Append(front, back)) == Append([head] + front, back)
  {
    assert back.Some? ==> [head] + (front + back.value) == ([head] + front) + back.value;
  }

  lemma LexemeEndsSolid(s: string)
    requires s != "" && !IsSpace(s[0]) && NextLexeme(s).Ok?
    ensures !IsSpace(s[NextLexeme(s).value.length - 1])
  {
    hide KnownField, Lowered, PrefixLength, EmitField;
    var n := NextLexeme(s).value.length;
    if s[0] !in {'(', ')', '/', '"'} && !Negates(s) && HasField(s) {
      hide ReadFieldValue, FieldFrom;
      var k := PrefixLength(s);
      EmptyValueIsRefused(s[..k], s[k + 1..]);
      ValueEndsSolid(s[k + 1..]);
      assert s[k + 1..][n - k - 2] == s[n - 1];
    }
  }

  lemma ValueEndsSolid(s: string)
    requires ReadFieldValue(s).Ok? && ReadFieldValue(s).value.1 > 0
    ensures !IsSpace(s[ReadFieldValue(s).value.1 - 1])
  {
  }

  /** Trailing whitespace is in no token. */
  lemma {:induction false} ShapesIgnoreTrailingSpace(s: string, c: char)
    requires IsSpace(c) && Shapes(s + [c]).Some?
    ensures Shapes(s) == Shapes(s + [c])
    decreases |s|
  {
    hide NextLexeme;
    var t := s + [c];
    if s == "" {
      assert t[1..] == "";
    } else if IsSpace(s[0]) {
      assert t[1..] == s[1..] + [c];
      ShapesIgnoreTrailingSpace(s[1..], c);
    } else {
      var l := NextLexeme(t).value;
      LexemeEndsSolid(t);
      NotLast(t);
      assert l.length <= |s|;
      assert s == t[..l.length] + s[l.length..];
      LexemeIsLocal(t, s[l.length..]);
      assert t[l.length..] == s[l.length..] + [c];
      ShapesIgnoreTrailingSpace(s[l.length..], c);
    }
  }
}
