/**
 How the grammar reads tokens that are put behind others: what it has read stays
 read, and what it leaves over grows.
 */
module GrammarLocality {
  import opened Wrappers
  import opened QueryAst
  import opened Scanner
  import opened Parser

  // ------------------------------------------------------------------ tokens behind a parse that stopped

  lemma {:induction false} PrimaryExtends(ts: seq<Token>, x: seq<Token>, depth: nat, c: Context)
    requires Primary(ts, depth, c).Ok?
    ensures Primary(ts + x, depth, c) == Ok((Primary(ts, depth, c).value.0, Primary(ts, depth, c).value.1 + x))
    decreases |ts|, 1
  {
    assert (ts + x)[1..] == ts[1..] + x;
    if ts[0].kind == NOT {
      PrimaryExtends(ts[1..], x, depth + 1, c);
    } else if ts[0].kind == LPAREN {
      var rest := OrExpr(ts[1..], depth + 1, c).value.1;
      OrExprExtends(ts[1..], x, depth + 1, c);
      assert (rest + x)[1..] == rest[1..] + x;
    }
  }

  lemma {:induction false} AndTailExtends(ts: seq<Token>, x: seq<Token>, depth: nat, c: Context)
    requires AndTail(ts, depth, c).Ok? && AndTail(ts, depth, c).value.1 != []
    ensures AndTail(ts + x, depth, c) == Ok((AndTail(ts, depth, c).value.0, AndTail(ts, depth, c).value.1 + x))
    decreases |ts|, 2
  {
    hide Primary;
    if !EndsAnd(ts) {
      PrimaryExtends(ts, x, depth, c);
      AndTailExtends(Primary(ts, depth, c).value.1, x, depth, c);
    }
  }

  lemma {:induction false} AndExprExtends(ts: seq<Token>, x: seq<Token>, depth: nat, c: Context)
    requires AndExpr(ts, depth, c).Ok? && AndExpr(ts, depth, c).value.1 != []
    ensures AndExpr(ts + x, depth, c) == Ok((AndExpr(ts, depth, c).value.0, AndExpr(ts, depth, c).value.1 + x))
    decreases |ts|, 4
  {
    hide Primary, AndTail;
    PrimaryExtends(ts, x, depth, c);
    AndTailExtends(Primary(ts, depth, c).value.1, x, depth, c);
  }

  lemma {:induction false} OrTailExtends(ts: seq<Token>, x: seq<Token>, depth: nat, c: Context)
    requires OrTail(ts, depth, c).Ok? && OrTail(ts, depth, c).value.1 != []
    ensures OrTail(ts + x, depth, c) == Ok((OrTail(ts, depth, c).value.0, OrTail(ts, depth, c).value.1 + x))
    decreases |ts|, 3
  {
    hide AndExpr;
    if ts != [] && ts[0].kind == OR {
      assert (ts + x)[1..] == ts[1..] + x;
      var rest := AndExpr(ts[1..], depth, c).value.1;
      RestOfTail(rest, depth, c);
      AndExprExtends(ts[1..], x, depth, c);
      OrTailExtends(rest, x, depth, c);
    }
  }

  /** A tail that leaves something behind had something to read. */
  lemma RestOfTail(ts: seq<Token>, depth: nat, c: Context)
    requires OrTail(ts, depth, c).Ok? && OrTail(ts, depth, c).value.1 != []
    ensures ts != []
  {
  }

  lemma {:induction false} OrExprExtends(ts: seq<Token>, x: seq<Token>, depth: nat, c: Context)
    requires OrExpr(ts, depth, c).Ok? && OrExpr(ts, depth, c).value.1 != []
    ensures OrExpr(ts + x, depth, c) == Ok((OrExpr(ts, depth, c).value.0, OrExpr(ts, depth, c).value.1 + x))
    decreases |ts|, 5
  {
    hide AndExpr, OrTail;
    var rest := AndExpr(ts, depth, c).value.1;
    RestOfTail(rest, depth, c);
    AndExprExtends(ts, x, depth, c);
    OrTailExtends(rest, x, depth, c);
  }

  // The column of the end of input shows in errors only.

  lemma {:induction false} PrimaryAnyEof(ts: seq<Token>, depth: nat, c: Context, eof: nat)
    requires Primary(ts, depth, c).Ok?
    ensures Primary(ts, depth, c.(eof := eof)) == Primary(ts, depth, c)
    decreases |ts|, 1
  {
    if ts[0].kind == NOT {
      PrimaryAnyEof(ts[1..], depth + 1, c, eof);
    } else if ts[0].kind == LPAREN {
      OrExprAnyEof(ts[1..], depth + 1, c, eof);
    }
  }

  lemma {:induction false} AndTailAnyEof(ts: seq<Token>, depth: nat, c: Context, eof: nat)
    requires AndTail(ts, depth, c).Ok?
    ensures AndTail(ts, depth, c.(eof := eof)) == AndTail(ts, depth, c)
    decreases |ts|, 2
  {
    hide Primary;
    if !EndsAnd(ts) {
      PrimaryAnyEof(ts, depth, c, eof);
      AndTailAnyEof(Primary(ts, depth, c).value.1, depth, c, eof);
    }
  }

  lemma {:induction false} AndExprAnyEof(ts: seq<Token>, depth: nat, c: Context, eof: nat)
    requires AndExpr(ts, depth, c).Ok?
    ensures AndExpr(ts, depth, c.(eof := eof)) == AndExpr(ts, depth, c)
    decreases |ts|, 4
  {
    hide Primary, AndTail;
    PrimaryAnyEof(ts, depth, c, eof);
    AndTailAnyEof(Primary(ts, depth, c).value.1, depth, c, eof);
  }

  lemma {:induction false} OrTailAnyEof(ts: seq<Token>, depth: nat, c: Context, eof: nat)
    requires OrTail(ts, depth, c).Ok?
    ensures OrTail(ts, depth, c.(eof := eof)) == OrTail(ts, depth, c)
    decreases |ts|, 3
  {
    hide AndExpr;
    if ts != [] && ts[0].kind == OR {
      AndExprAnyEof(ts[1..], depth, c, eof);
      OrTailAnyEof(AndExpr(ts[1..], depth, c).value.1, depth, c, eof);
    }
  }

  lemma {:induction false} OrExprAnyEof(ts: seq<Token>, depth: nat, c: Context, eof: nat)
    requires OrExpr(ts, depth, c).Ok?
    ensures OrExpr(ts, depth, c.(eof := eof)) == OrExpr(ts, depth, c)
    decreases |ts|, 5
  {
    hide AndExpr, OrTail;
    AndExprAnyEof(ts, depth, c, eof);
    OrTailAnyEof(AndExpr(ts, depth, c).value.1, depth, c, eof);
  }

  /** The arms of the disjunction at the head of the tokens. */
  function Arms(ts: seq<Token>, depth: nat, c: Context): (arms: seq<Raw>)
    requires OrExpr(ts, depth, c).Ok?
    ensures arms != [] && OrExpr(ts, depth, c).value.0 == Grouped(arms, true)
  {
    [AndExpr(ts, depth, c).value.0] + OrTail(AndExpr(ts, depth, c).value.1, depth, c).value.0
  }

  /** One more operand at the end of a conjunction that ends with the input. */
  lemma {:induction false} AndTailGrows(ts: seq<Token>, t: Token, depth: nat, c: Context)
    requires AndTail(ts, depth, c).Ok? && AndTail(ts, depth, c).value.1 == [] && t.kind == BRANCH
    ensures AndTail(ts + [t], depth, c) == Ok((AndTail(ts, depth, c).value.0 + [Term(BranchFilter(t.value))], []))
    decreases |ts|
  {
    if ts == [] {
      var one := [Term(BranchFilter(t.value))];
      assert ts + [t] == [t] && [t][1..] == [];
      assert AndTail([t][1..], depth, c) == Ok(([], []));
      assert one + [] == one && [] + one == one;
    } else {
      PrimaryExtends(ts, [t], depth, c);
      hide Primary;
      var next, rest := Primary(ts, depth, c).value.0, Primary(ts, depth, c).value.1;
      AndTailGrows(rest, t, depth, c);
      var more := AndTail(rest, depth, c).value.0;
      assert [next] + (more + [Term(BranchFilter(t.value))]) == ([next] + more) + [Term(BranchFilter(t.value))];
    }
  }

  /** The operands of the conjunction at the head of the tokens. */
  function Operands(ts: seq<Token>, depth: nat, c: Context): (operands: seq<Raw>)
    requires AndExpr(ts, depth, c).Ok?
    ensures operands != []
  {
    [Primary(ts, depth, c).value.0] + AndTail(Primary(ts, depth, c).value.1, depth, c).value.0
  }

  lemma AndExprGrows(ts: seq<Token>, t: Token, depth: nat, c: Context)
    requires AndExpr(ts, depth, c).Ok? && AndExpr(ts, depth, c).value.1 == [] && t.kind == BRANCH
    ensures AndExpr(ts, depth, c).value.0 == Grouped(Operands(ts, depth, c), false)
    ensures AndExpr(ts + [t], depth, c) ==
      Ok((Grouped(Operands(ts, depth, c) + [Term(BranchFilter(t.value))], false), []))
  {
    hide Primary, AndTail;
    PrimaryExtends(ts, [t], depth, c);
    var first, rest := Primary(ts, depth, c).value.0, Primary(ts, depth, c).value.1;
    AndTailGrows(rest, t, depth, c);
    var more := AndTail(rest, depth, c).value.0;
    assert [first] + (more + [Term(BranchFilter(t.value))]) == ([first] + more) + [Term(BranchFilter(t.value))];
  }

  lemma {:induction false} OrTailGrows(ts: seq<Token>, t: Token, depth: nat, c: Context)
    returns (arms: seq<Raw>, last: seq<Raw>)
    requires ts != [] && OrTail(ts, depth, c).Ok? && OrTail(ts, depth, c).value.1 == [] && t.kind == BRANCH
    ensures last != [] && OrTail(ts, depth, c).value.0 == arms + [Grouped(last, false)]
    ensures OrTail(ts + [t], depth, c) == Ok((arms + [Grouped(last + [Term(BranchFilter(t.value))], false)], []))
    decreases |ts|
  {
    hide AndExpr, Operands;
    assert ts[0].kind == OR && (ts + [t])[1..] == ts[1..] + [t];
    var next, rest := AndExpr(ts[1..], depth, c).value.0, AndExpr(ts[1..], depth, c).value.1;
    if rest == [] {
      AndExprGrows(ts[1..], t, depth, c);
      arms, last := [], Operands(ts[1..], depth, c);
      assert OrTail([], depth, c) == Ok(([], []));
      var grown := Grouped(last + [Term(BranchFilter(t.value))], false);
      assert [next] + [] == [] + [next] && [grown] + [] == [] + [grown];
    } else {
      AndExprExtends(ts[1..], [t], depth, c);
      var more;
      more, last := OrTailGrows(rest, t, depth, c);
      arms := [next] + more;
      var shorter, grown := [Grouped(last, false)], [Grouped(last + [Term(BranchFilter(t.value))], false)];
      assert [next] + (more + shorter) == ([next] + more) + shorter && [next] + (more + grown) == ([next] + more) + grown;
    }
  }

  /** The atom joins the last arm of the query's top-level disjunction, and no other. */
  lemma AtomJoinsLastArm(ts: seq<Token>, t: Token, depth: nat, c: Context) returns (arms: seq<Raw>, last: seq<Raw>)
    requires OrExpr(ts, depth, c).Ok? && OrExpr(ts, depth, c).value.1 == [] && t.kind == BRANCH
    ensures last != [] && Arms(ts, depth, c) == arms + [Grouped(last, false)]
    ensures OrExpr(ts + [t], depth, c) ==
      Ok((Grouped(arms + [Grouped(last + [Term(BranchFilter(t.value))], false)], true), []))
  {
    hide AndExpr, Operands;
    var first, rest := AndExpr(ts, depth, c).value.0, AndExpr(ts, depth, c).value.1;
    if rest == [] {
      AndExprGrows(ts, t, depth, c);
      arms, last := [], Operands(ts, depth, c);
      assert OrTail([], depth, c) == Ok(([], []));
      var grown := Grouped(last + [Term(BranchFilter(t.value))], false);
      assert [first] + [] == [] + [first] && [grown] + [] == [] + [grown];
    } else {
      AndExprExtends(ts, [t], depth, c);
      var more;
      more, last := OrTailGrows(rest, t, depth, c);
      arms := [first] + more;
      var shorter, grown := [Grouped(last, false)], [Grouped(last + [Term(BranchFilter(t.value))], false)];
      assert [first] + (more + shorter) == arms + shorter && [first] + (more + grown) == arms + grown;
    }
  }

  // ------------------------------------------------------------------ taking the last token away

  /** A tree that leaves tokens over did not need the last of them. */
  ghost predicate ReadBefore<T>(p: Parsed<T>, shorter: Parsed<T>, x: Token) {
    p.Ok? && shorter.Ok? && p.value.0 == shorter.value.0 && p.value.1 == shorter.value.1 + [x]
  }

  lemma {:induction false} PrimaryCut(ts: seq<Token>, x: Token, depth: nat, c: Context)
    requires Primary(ts + [x], depth, c).Ok? && Primary(ts + [x], depth, c).value.1 != []
    ensures ReadBefore(Primary(ts + [x], depth, c), Primary(ts, depth, c), x)
    decreases |ts|, 1
  {
    if ts != [] {
      assert (ts + [x])[0] == ts[0] && (ts + [x])[1..] == ts[1..] + [x];
      if ts[0].kind == NOT {
        PrimaryCut(ts[1..], x, depth + 1, c);
      } else if ts[0].kind == LPAREN {
        OrExprCut(ts[1..], x, depth + 1, c);
        var rest := OrExpr(ts[1..], depth + 1, c).value.1;
        assert (rest + [x])[1..] == rest[1..] + [x];
      }
    }
  }

  lemma {:induction false} AndTailCut(ts: seq<Token>, x: Token, depth: nat, c: Context)
    requires AndTail(ts + [x], depth, c).Ok? && AndTail(ts + [x], depth, c).value.1 != []
    ensures ReadBefore(AndTail(ts + [x], depth, c), AndTail(ts, depth, c), x)
    decreases |ts|, 2
  {
    if ts == [] {
      assert ts + [x] == [x];
    } else if !EndsAnd(ts) {
      hide Primary;
      PrimaryCut(ts, x, depth, c);
      AndTailCut(Primary(ts, depth, c).value.1, x, depth, c);
    }
  }

  lemma {:induction false} AndExprCut(ts: seq<Token>, x: Token, depth: nat, c: Context)
    requires AndExpr(ts + [x], depth, c).Ok? && AndExpr(ts + [x], depth, c).value.1 != []
    ensures ReadBefore(AndExpr(ts + [x], depth, c), AndExpr(ts, depth, c), x)
    decreases |ts|, 4
  {
    hide Primary;
    PrimaryCut(ts, x, depth, c);
    AndTailCut(Primary(ts, depth, c).value.1, x, depth, c);
  }

  lemma {:induction false} OrTailCut(ts: seq<Token>, x: Token, depth: nat, c: Context)
    requires OrTail(ts + [x], depth, c).Ok? && OrTail(ts + [x], depth, c).value.1 != []
    ensures ReadBefore(OrTail(ts + [x], depth, c), OrTail(ts, depth, c), x)
    decreases |ts|, 3
  {
    hide AndExpr;
    if ts == [] {
      assert ts + [x] == [x];
    } else if ts[0].kind == OR {
      assert (ts + [x])[1..] == ts[1..] + [x];
      var rest := AndExpr(ts[1..] + [x], depth, c).value.1;
      RestOfTail(rest, depth, c);
      AndExprCut(ts[1..], x, depth, c);
      OrTailCut(AndExpr(ts[1..], depth, c).value.1, x, depth, c);
    }
  }

  lemma {:induction false} OrExprCut(ts: seq<Token>, x: Token, depth: nat, c: Context)
    requires OrExpr(ts + [x], depth, c).Ok? && OrExpr(ts + [x], depth, c).value.1 != []
    ensures ReadBefore(OrExpr(ts + [x], depth, c), OrExpr(ts, depth, c), x)
    decreases |ts|, 5
  {
    hide AndExpr, OrTail;
    RestOfTail(AndExpr(ts + [x], depth, c).value.1, depth, c);
    AndExprCut(ts, x, depth, c);
    OrTailCut(AndExpr(ts, depth, c).value.1, x, depth, c);
  }

  // ------------------------------------------------------------------ when one more operand completes a parse

  predicate EndsIn(ts: seq<Token>, kind: TokenKind) {
    ts != [] && ts[|ts| - 1].kind == kind
  }

  function Init<T>(s: seq<T>): seq<T>
    requires s != []
  {
    s[..|s| - 1]
  }

  /** An `or`, or a branch filter that no negation waits for. */
  predicate Completing(ts: seq<Token>, t: Token) {
    t.kind == OR || (t.kind == BRANCH && !EndsIn(ts, NOT))
  }

  /** The whole text is read. */
  predicate Complete<T>(p: Parsed<T>) {
    p.Ok? && p.value.1 == []
  }

  lemma PrimaryKeepsLast(ts: seq<Token>, depth: nat, c: Context, kind: TokenKind)
    requires Primary(ts, depth, c).Ok? && Primary(ts, depth, c).value.1 != []
    ensures EndsIn(Primary(ts, depth, c).value.1, kind) <==> EndsIn(ts, kind)
  {
    assert ts == Init(ts) + [ts[|ts| - 1]];
    hide Primary;
    PrimaryCut(Init(ts), ts[|ts| - 1], depth, c);
  }

  lemma AndExprKeepsLast(ts: seq<Token>, depth: nat, c: Context, kind: TokenKind)
    requires AndExpr(ts, depth, c).Ok? && AndExpr(ts, depth, c).value.1 != []
    ensures EndsIn(AndExpr(ts, depth, c).value.1, kind) <==> EndsIn(ts, kind)
  {
    assert ts == Init(ts) + [ts[|ts| - 1]];
    hide AndExpr;
    AndExprCut(Init(ts), ts[|ts| - 1], depth, c);
  }

  lemma {:induction false} PrimaryCompleted(ts: seq<Token>, t: Token, depth: nat, c: Context)
    requires Complete(Primary(ts + [t], depth, c)) && Completing(ts, t)
    ensures ts == []
    decreases |ts|
  {
    if ts != [] {
      assert (ts + [t])[0] == ts[0] && (ts + [t])[1..] == ts[1..] + [t];
      if ts[0].kind == NOT {
        PrimaryCompleted(ts[1..], t, depth + 1, c);
      } else if ts[0].kind == LPAREN {
        OrExprCut(ts[1..], t, depth + 1, c);
      }
    }
  }

  lemma {:induction false} AndTailCompleted(ts: seq<Token>, t: Token, depth: nat, c: Context)
    requires Complete(AndTail(ts + [t], depth, c)) && Completing(ts, t)
    ensures Complete(AndTail(ts, depth, c))
    decreases |ts|
  {
    if ts != [] {
      hide Primary;
      assert (ts + [t])[0] == ts[0];
      if Primary(ts + [t], depth, c).value.1 == [] {
        PrimaryCompleted(ts, t, depth, c);
      } else {
        PrimaryCut(ts, t, depth, c);
        var rest := Primary(ts, depth, c).value.1;
        if rest != [] { PrimaryKeepsLast(ts, depth, c, NOT); }
        AndTailCompleted(rest, t, depth, c);
      }
    }
  }

  lemma AndExprCompleted(ts: seq<Token>, t: Token, depth: nat, c: Context)
    requires Complete(AndExpr(ts + [t], depth, c)) && Completing(ts, t)
    ensures ts == [] || Complete(AndExpr(ts, depth, c))
  {
    hide Primary;
    if Primary(ts + [t], depth, c).value.1 == [] {
      PrimaryCompleted(ts, t, depth, c);
    } else {
      PrimaryCut(ts, t, depth, c);
      var rest := Primary(ts, depth, c).value.1;
      if rest != [] { PrimaryKeepsLast(ts, depth, c, NOT); }
      AndTailCompleted(rest, t, depth, c);
    }
  }

  /** A disjunction completed by one more operand was complete before, or lacked the operand of its last `or`. */
  lemma {:induction false} OrTailCompleted(ts: seq<Token>, t: Token, depth: nat, c: Context)
    requires Complete(OrTail(ts + [t], depth, c)) && t.kind == BRANCH && !EndsIn(ts, NOT)
    ensures ts != []
    ensures Complete(OrTail(ts, depth, c)) || (EndsIn(ts, OR) && Complete(OrTail(Init(ts), depth, c)))
    decreases |ts|
  {
    hide AndExpr;
    assert ts == [] ==> ts + [t] == [t];
    assert (ts + [t])[0] == ts[0] && (ts + [t])[1..] == ts[1..] + [t];
    if AndExpr(ts[1..] + [t], depth, c).value.1 == [] {
      AndExprCompleted(ts[1..], t, depth, c);
      assert ts[1..] == [] ==> Init(ts) == [];
    } else {
      AndExprCut(ts[1..], t, depth, c);
      var rest := AndExpr(ts[1..], depth, c).value.1;
      if rest != [] { AndExprKeepsLast(ts[1..], depth, c, NOT); }
      OrTailCompleted(rest, t, depth, c);
      if !Complete(OrTail(rest, depth, c)) {
        AndExprKeepsLast(ts[1..], depth, c, OR);
        assert ts[1..] == Init(ts)[1..] + [ts[|ts| - 1]];
        AndExprCut(Init(ts)[1..], ts[|ts| - 1], depth, c);
        assert Init(rest) == AndExpr(Init(ts)[1..], depth, c).value.1;
      }
    }
  }

  lemma OrExprCompleted(ts: seq<Token>, t: Token, depth: nat, c: Context)
    requires Complete(OrExpr(ts + [t], depth, c)) && t.kind == BRANCH && !EndsIn(ts, NOT)
    ensures ts == [] || Complete(OrExpr(ts, depth, c)) || (EndsIn(ts, OR) && Complete(OrExpr(Init(ts), depth, c)))
  {
    hide AndExpr;
    if AndExpr(ts + [t], depth, c).value.1 == [] {
      AndExprCompleted(ts, t, depth, c);
    } else {
      AndExprCut(ts, t, depth, c);
      var rest := AndExpr(ts, depth, c).value.1;
      if rest != [] { AndExprKeepsLast(ts, depth, c, NOT); }
      OrTailCompleted(rest, t, depth, c);
      if !Complete(OrTail(rest, depth, c)) {
        AndExprKeepsLast(ts, depth, c, OR);
        assert ts == Init(ts) + [ts[|ts| - 1]];
        AndExprCut(Init(ts), ts[|ts| - 1], depth, c);
        assert Init(rest) == AndExpr(Init(ts), depth, c).value.1;
      }
    }
  }

  // A complete parse does not end in an `or`.

  lemma AndExprNeedsNoOr(ts: seq<Token>, o: Token, depth: nat, c: Context)
    requires o.kind == OR
    ensures !Complete(AndExpr(ts + [o], depth, c))
  {
    if Complete(AndExpr(ts + [o], depth, c)) {
      AndExprCompleted(ts, o, depth, c);
      if ts != [] {
        hide AndExpr;
        AndExprStops(ts, [o], depth, c);
      }
    }
  }

  lemma {:induction false} OrTailNeedsNoOr(ts: seq<Token>, o: Token, depth: nat, c: Context)
    requires o.kind == OR
    ensures !Complete(OrTail(ts + [o], depth, c))
    decreases |ts|
  {
    hide AndExpr;
    if ts == [] {
      assert ts + [o] == [o];
    } else if Complete(OrTail(ts + [o], depth, c)) {
      assert (ts + [o])[1..] == ts[1..] + [o];
      AndExprNeedsNoOr(ts[1..], o, depth, c);
      AndExprCut(ts[1..], o, depth, c);
      OrTailNeedsNoOr(AndExpr(ts[1..], depth, c).value.1, o, depth, c);
    }
  }

  lemma OrExprNeedsNoOr(ts: seq<Token>, depth: nat, c: Context)
    requires Complete(OrExpr(ts, depth, c))
    ensures !EndsIn(ts, OR)
  {
    if EndsIn(ts, OR) {
      hide AndExpr, OrTail;
      var o := ts[|ts| - 1];
      assert ts == Init(ts) + [o];
      AndExprNeedsNoOr(Init(ts), o, depth, c);
      AndExprCut(Init(ts), o, depth, c);
      OrTailNeedsNoOr(AndExpr(Init(ts), depth, c).value.1, o, depth, c);
    }
  }

  // ------------------------------------------------------------------ an `or` and one operand behind a complete parse

  /** A conjunction that ends with the input ends as well in front of an `or`. */
  lemma {:induction false} AndTailStops(ts: seq<Token>, x: seq<Token>, depth: nat, c: Context)
    requires Complete(AndTail(ts, depth, c)) && EndsAnd(x)
    ensures AndTail(ts + x, depth, c) == Ok((AndTail(ts, depth, c).value.0, x))
    decreases |ts|
  {
    if ts == [] {
      assert ts + x == x;
    } else {
      PrimaryExtends(ts, x, depth, c);
      hide Primary;
      AndTailStops(Primary(ts, depth, c).value.1, x, depth, c);
    }
  }

  lemma AndExprStops(ts: seq<Token>, x: seq<Token>, depth: nat, c: Context)
    requires Complete(AndExpr(ts, depth, c)) && EndsAnd(x)
    ensures AndExpr(ts + x, depth, c) == Ok((AndExpr(ts, depth, c).value.0, x))
  {
    hide Primary, AndTail;
    PrimaryExtends(ts, x, depth, c);
    AndTailStops(Primary(ts, depth, c).value.1, x, depth, c);
  }

  lemma OneArm(o: Token, t: Token, depth: nat, c: Context)
    requires o.kind == OR && t.kind == BRANCH
    ensures OrTail([o, t], depth, c) == Ok(([Term(BranchFilter(t.value))], []))
  {
    var arm := Term(BranchFilter(t.value));
    assert [o, t][1..] == [t] && [t][1..] == [];
    assert AndTail([], depth, c) == Ok(([], [])) && OrTail([], depth, c) == Ok(([], []));
    assert [arm] + [] == [arm];
    assert AndExpr([t], depth, c) == Ok((arm, []));
  }

  lemma {:induction false} OrTailOpens(ts: seq<Token>, o: Token, t: Token, depth: nat, c: Context)
    requires Complete(OrTail(ts, depth, c)) && o.kind == OR && t.kind == BRANCH
    ensures OrTail(ts + [o, t], depth, c) ==
      Ok((OrTail(ts, depth, c).value.0 + [Term(BranchFilter(t.value))], []))
    decreases |ts|
  {
    hide AndExpr;
    var arm := Term(BranchFilter(t.value));
    OneArm(o, t, depth, c);
    if ts == [] {
      assert ts + [o, t] == [o, t] && [] + [arm] == [arm];
    } else {
      assert (ts + [o, t])[1..] == ts[1..] + [o, t];
      var next, rest := AndExpr(ts[1..], depth, c).value.0, AndExpr(ts[1..], depth, c).value.1;
      if rest == [] {
        AndExprStops(ts[1..], [o, t], depth, c);
        assert [next] + [arm] == ([next] + []) + [arm];
      } else {
        AndExprExtends(ts[1..], [o, t], depth, c);
        OrTailOpens(rest, o, t, depth, c);
        var more := OrTail(rest, depth, c).value.0;
        assert [next] + (more + [arm]) == ([next] + more) + [arm];
      }
    }
  }

  /** Behind a dangling `or` the atom is an arm of its own. */
  lemma AtomIsOwnArm(ts: seq<Token>, o: Token, t: Token, depth: nat, c: Context)
    requires Complete(OrExpr(ts, depth, c)) && o.kind == OR && t.kind == BRANCH
    ensures OrExpr(ts + [o, t], depth, c) ==
      Ok((Grouped(Arms(ts, depth, c) + [Term(BranchFilter(t.value))], true), []))
  {
    hide AndExpr;
    var arm := Term(BranchFilter(t.value));
    var first, rest := AndExpr(ts, depth, c).value.0, AndExpr(ts, depth, c).value.1;
    if rest == [] {
      AndExprStops(ts, [o, t], depth, c);
      OneArm(o, t, depth, c);
      assert OrTail([], depth, c) == Ok(([], []));
      assert [first] + [arm] == ([first] + []) + [arm];
    } else {
      AndExprExtends(ts, [o, t], depth, c);
      OrTailOpens(rest, o, t, depth, c);
      var more := OrTail(rest, depth, c).value.0;
      assert [first] + (more + [arm]) == ([first] + more) + [arm];
    }
  }
}
