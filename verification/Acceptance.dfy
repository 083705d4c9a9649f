/**
 Which queries parse (app/query/parser.py), told by a machine that reads every token
 once, without building a tree: a stack of what is open, and whether an operand is due.
 */
module Acceptance {
  import opened Wrappers
  import opened QueryAst
  import opened Scanner
  import opened Parser
  import opened Normalize

  /** What is open: a negation, or a group, with whether it holds a term so far. */
  datatype Frame = Group(termed: bool) | Negation

  /** The whole query is the group at the bottom. */
  predicate Proper(stack: seq<Frame>) {
    stack != [] && stack[0].Group?
  }

  function Top(stack: seq<Frame>): Frame
    requires stack != []
  {
    stack[|stack| - 1]
  }

  /**
   An operand is complete: the negations right before it are, which none may be without
   a term, and the group around them has what it has.
   */
  function Completed(stack: seq<Frame>, termed: bool): (r: Option<seq<Frame>>)
    requires Proper(stack)
    ensures r.Some? ==> Proper(r.value) && Top(r.value).Group?
    decreases |stack|
  {
    match Top(stack)
    case Group(before) => Some(stack[..|stack| - 1] + [Group(before || termed)])
    case Negation => if termed then Completed(stack[..|stack| - 1], true) else None
  }

  /** Do these tokens complete what is open? */
  predicate Accepts(ts: seq<Token>, stack: seq<Frame>, due: bool)
    requires Proper(stack)
    decreases |ts|
  {
    if ts == [] then !due && stack == [Group(true)]
    else
      match ts[0].kind
      case NOT => |stack| <= 200 && Accepts(ts[1..], stack + [Negation], true)
      case LPAREN => |stack| <= 200 && Accepts(ts[1..], stack + [Group(false)], true)
      case RPAREN =>
        !due && |stack| > 1 && Top(stack).Group?
        && Continues(ts, Completed(stack[..|stack| - 1], Top(stack).termed))
      case OR => !due && Accepts(ts[1..], stack, true)
      case _ => Continues(ts, Completed(stack, ts[0].kind != CASE))
  }

  predicate Continues(ts: seq<Token>, stack: Option<seq<Frame>>)
    requires ts != [] && (stack.Some? ==> Proper(stack.value))
    decreases |ts|, 0
  {
    stack.Some? && Accepts(ts[1..], stack.value, false)
  }

  // ------------------------------------------------------------------ the grammar is the machine

  /** An operand that is well-formed, and has a term or not, was read in front of `rest`. */
  predicate Goes(formed: bool, termed: bool, stack: seq<Frame>, rest: seq<Token>)
    requires Proper(stack)
  {
    formed && Completed(stack, termed).Some? && Accepts(rest, Completed(stack, termed).value, false)
  }

  predicate Formed(raw: Raw) {
    Finalize(raw).Ok?
  }

  predicate Termed(raw: Raw) {
    Finalize(raw).Ok? && Finalize(raw).value.Some?
  }

  predicate AllFormed(raws: seq<Raw>) {
    Kids(raws).Ok?
  }

  predicate AnyTermed(raws: seq<Raw>) {
    Kids(raws).Ok? && Kids(raws).value != []
  }

  lemma ListFormed(first: Raw, more: seq<Raw>)
    ensures AllFormed([first] + more) <==> Formed(first) && AllFormed(more)
    ensures Formed(first) && AllFormed(more) ==> (AnyTermed([first] + more) <==> Termed(first) || AnyTermed(more))
  {
    assert ([first] + more)[1..] == more;
  }

  lemma GroupedIsFormed(first: Raw, more: seq<Raw>, isOr: bool)
    ensures Formed(Grouped([first] + more, isOr)) <==> Formed(first) && AllFormed(more)
    ensures Formed(first) && AllFormed(more) ==>
      (Termed(Grouped([first] + more, isOr)) <==> Termed(first) || AnyTermed(more))
  {
    if more != [] {
      hide Kids;
      ListFormed(first, more);
      assert |[first] + more| > 1;
    }
  }

  lemma GoesOn(stack: seq<Frame>, a: bool, b: bool)
    requires Proper(stack) && Top(stack).Group?
    ensures Completed(stack, a).Some? && |Completed(stack, a).value| == |stack|
    ensures Completed(Completed(stack, a).value, b) == Completed(stack, a || b)
    ensures Completed(stack, false) == Some(stack)
  {
    assert stack == stack[..|stack| - 1] + [Top(stack)];
  }

  /** An operand is read, and then the ones behind it. */
  lemma GoesBehind(stack: seq<Frame>, first: (Raw, seq<Token>), tail: Parsed<seq<Raw>>)
    requires Proper(stack) && Top(stack).Group? && Completed(stack, Termed(first.0)).Some?
    requires Accepts(first.1, Completed(stack, Termed(first.0)).value, false) <==>
             tail.Ok? && Goes(AllFormed(tail.value.0), AnyTermed(tail.value.0), Completed(stack, Termed(first.0)).value, tail.value.1)
    ensures Goes(Formed(first.0), Termed(first.0), stack, first.1) <==>
      && tail.Ok?
      && Goes(Formed(first.0) && AllFormed(tail.value.0), Termed(first.0) || AnyTermed(tail.value.0), stack, tail.value.1)
  {
    if tail.Ok? {
      GoesOn(stack, Termed(first.0), AnyTermed(tail.value.0));
    }
  }

  lemma NothingRead(ts: seq<Token>, stack: seq<Frame>)
    requires Proper(stack) && Top(stack).Group?
    ensures Goes(AllFormed([]), AnyTermed([]), stack, ts) <==> Accepts(ts, stack, false)
  {
    hide Accepts;
    GoesOn(stack, false, false);
  }

  lemma GroupCloses(ts: seq<Token>, stack: seq<Frame>, termed: bool)
    requires Proper(stack) && (ts == [] || ts[0].kind == RPAREN)
    ensures Goes(true, termed, stack + [Group(false)], ts) <==> ts != [] && Goes(true, termed, stack, ts[1..])
  {
    var inside := stack + [Group(false)];
    assert inside[..|stack|] == stack;
    var grown := stack + [Group(termed)];
    assert Completed(inside, termed) == Some(grown);
    assert grown[..|stack|] == stack && Top(grown) == Group(termed);
    if ts != [] {
      assert Accepts(ts, grown, false) <==> Continues(ts, Completed(stack, termed));
    }
  }

  lemma NegationAccepted(ts: seq<Token>, stack: seq<Frame>, due: bool, p: Parsed<Raw>)
    requires Proper(stack) && ts != [] && ts[0].kind == NOT && |stack| <= MAX_DEPTH
    requires Accepts(ts[1..], stack + [Negation], true) <==>
             p.Ok? && Goes(Formed(p.value.0), Termed(p.value.0), stack + [Negation], p.value.1)
    ensures var n := Negated(ts[0], p);
      Accepts(ts, stack, due) <==> n.Ok? && Goes(Formed(n.value.0), Termed(n.value.0), stack, n.value.1)
  {
    assert (stack + [Negation])[..|stack|] == stack;
  }

  lemma GroupAccepted(ts: seq<Token>, stack: seq<Frame>, due: bool, p: Parsed<Raw>)
    requires Proper(stack) && ts != [] && ts[0].kind == LPAREN && |stack| <= MAX_DEPTH
    requires Accepts(ts[1..], stack + [Group(false)], true) <==>
             p.Ok? && Goes(Formed(p.value.0), Termed(p.value.0), stack + [Group(false)], p.value.1)
    requires p.Ok? ==> p.value.1 == [] || p.value.1[0].kind == RPAREN
    ensures var n := Closed(ts[0], p);
      Accepts(ts, stack, due) <==> n.Ok? && Goes(Formed(n.value.0), Termed(n.value.0), stack, n.value.1)
  {
    assert Accepts(ts, stack, due) <==> Accepts(ts[1..], stack + [Group(false)], true);
    hide Finalize, Accepts, Completed;
    if p.Ok? {
      GroupCloses(p.value.1, stack, Termed(p.value.0));
    }
  }

  lemma OperandAccepted(ts: seq<Token>, stack: seq<Frame>, due: bool, c: Context)
    requires Proper(stack) && ts != [] && ts[0].kind !in {LPAREN, RPAREN, OR, NOT}
    ensures var raw := Operand(ts[0], c.caseSensitive);
      Accepts(ts, stack, due) <==> Goes(Formed(raw), Termed(raw), stack, ts[1..])
  {
    hide Completed;
  }

  lemma {:induction false} PrimaryAccepted(ts: seq<Token>, stack: seq<Frame>, due: bool, c: Context)
    requires Proper(stack) && (due || !EndsAnd(ts))
    ensures var p := Primary(ts, |stack| - 1, c);
      Accepts(ts, stack, due) <==> p.Ok? && Goes(Formed(p.value.0), Termed(p.value.0), stack, p.value.1)
    decreases |ts|, 1
  {
    hide OrExpr, Completed, Formed, Termed, Goes, Operand, Negated, Closed;
    if ts != [] {
      if ts[0].kind == NOT {
        if |stack| <= MAX_DEPTH {
          PrimaryAccepted(ts[1..], stack + [Negation], true, c);
          NegationAccepted(ts, stack, due, Primary(ts[1..], |stack|, c));
        }
      } else if ts[0].kind == LPAREN {
        if |stack| <= MAX_DEPTH {
          OrExprAccepted(ts[1..], stack + [Group(false)], c);
          GroupAccepted(ts, stack, due, OrExpr(ts[1..], |stack|, c));
        }
      } else if !EndsAnd(ts) {
        OperandAccepted(ts, stack, due, c);
      }
    }
  }

  lemma {:induction false} AndTailAccepted(ts: seq<Token>, stack: seq<Frame>, c: Context)
    requires Proper(stack) && Top(stack).Group?
    ensures var p := AndTail(ts, |stack| - 1, c);
      && (Accepts(ts, stack, false) <==>
          p.Ok? && Goes(AllFormed(p.value.0), AnyTermed(p.value.0), stack, p.value.1))
      && (p.Ok? ==> EndsAnd(p.value.1))
    decreases |ts|, 2
  {
    hide Primary, Accepts, Completed, Finalize, Kids, Formed, Termed, AllFormed, AnyTermed;
    if EndsAnd(ts) {
      NothingRead(ts, stack);
    } else {
      PrimaryAccepted(ts, stack, false, c);
      var p := Primary(ts, |stack| - 1, c);
      if p.Ok? {
        GoesOn(stack, Termed(p.value.0), false);
        AndTailAccepted(p.value.1, Completed(stack, Termed(p.value.0)).value, c);
        var tail := AndTail(p.value.1, |stack| - 1, c);
        GoesBehind(stack, p.value, tail);
        if tail.Ok? {
          ListFormed(p.value.0, tail.value.0);
        }
      }
    }
  }

  lemma {:induction false} AndExprAccepted(ts: seq<Token>, stack: seq<Frame>, due: bool, c: Context)
    requires Proper(stack) && Top(stack).Group? && (due || !EndsAnd(ts))
    ensures var p := AndExpr(ts, |stack| - 1, c);
      && (Accepts(ts, stack, due) <==> p.Ok? && Goes(Formed(p.value.0), Termed(p.value.0), stack, p.value.1))
      && (p.Ok? ==> EndsAnd(p.value.1))
    decreases |ts|, 4
  {
    hide Primary, AndTail, Accepts, Completed, Finalize, Kids, Formed, Termed, AllFormed, AnyTermed;
    PrimaryAccepted(ts, stack, due, c);
    var p := Primary(ts, |stack| - 1, c);
    if p.Ok? {
      GoesOn(stack, Termed(p.value.0), false);
      AndTailAccepted(p.value.1, Completed(stack, Termed(p.value.0)).value, c);
      var tail := AndTail(p.value.1, |stack| - 1, c);
      GoesBehind(stack, p.value, tail);
      if tail.Ok? {
        GroupedIsFormed(p.value.0, tail.value.0, false);
      }
    }
  }

  lemma {:induction false} OrTailAccepted(ts: seq<Token>, stack: seq<Frame>, c: Context)
    requires Proper(stack) && Top(stack).Group? && EndsAnd(ts)
    ensures var p := OrTail(ts, |stack| - 1, c);
      && (Accepts(ts, stack, false) <==>
          p.Ok? && Goes(AllFormed(p.value.0), AnyTermed(p.value.0), stack, p.value.1))
      && (p.Ok? ==> p.value.1 == [] || p.value.1[0].kind == RPAREN)
    decreases |ts|, 3
  {
    hide AndExpr, Completed, Finalize, Kids, Formed, Termed, AllFormed, AnyTermed;
    NothingRead(ts, stack);
    if ts != [] && ts[0].kind == OR && !EndsAnd(ts[1..]) {
      AndExprAccepted(ts[1..], stack, true, c);
      var p := AndExpr(ts[1..], |stack| - 1, c);
      if p.Ok? {
        GoesOn(stack, Termed(p.value.0), false);
        OrTailAccepted(p.value.1, Completed(stack, Termed(p.value.0)).value, c);
        var tail := OrTail(p.value.1, |stack| - 1, c);
        GoesBehind(stack, p.value, tail);
        if tail.Ok? {
          ListFormed(p.value.0, tail.value.0);
        }
      }
    }
  }

  lemma {:induction false} OrExprAccepted(ts: seq<Token>, stack: seq<Frame>, c: Context)
    requires Proper(stack) && Top(stack).Group?
    ensures var p := OrExpr(ts, |stack| - 1, c);
      && (Accepts(ts, stack, true) <==> p.Ok? && Goes(Formed(p.value.0), Termed(p.value.0), stack, p.value.1))
      && (p.Ok? ==> p.value.1 == [] || p.value.1[0].kind == RPAREN)
    decreases |ts|, 5
  {
    hide AndExpr, OrTail, Accepts, Completed, Finalize, Kids, Formed, Termed, AllFormed, AnyTermed;
    AndExprAccepted(ts, stack, true, c);
    var p := AndExpr(ts, |stack| - 1, c);
    if p.Ok? {
      GoesOn(stack, Termed(p.value.0), false);
      OrTailAccepted(p.value.1, Completed(stack, Termed(p.value.0)).value, c);
      var tail := OrTail(p.value.1, |stack| - 1, c);
      GoesBehind(stack, p.value, tail);
      if tail.Ok? {
        GroupedIsFormed(p.value.0, tail.value.0, true);
      }
    }
  }

  /** A query parses exactly when it scans and the machine accepts its tokens. */
  lemma ParsesExactlyWhen(query: string)
    ensures Parse(query).Ok? <==> Tokens(query).Ok? && Accepts(Tokens(query).value, [Group(false)], true)
  {
    if Tokens(query).Ok? {
      var ts := Tokens(query).value;
      var c := Context(ResolveCase(ts), EofOf(ts));
      OrExprAccepted(ts, [Group(false)], c);
      var p := OrExpr(ts, 0, c);
      GoesOn([Group(false)], p.Ok? && Termed(p.value.0), false);
    }
  }

  // ------------------------------------------------------------------ the terms of a query

  /** The terms the operands stand for, in order. */
  function Terms(ts: seq<Token>, caseSensitive: bool): seq<Node> {
    if ts == [] then []
    else
      (if ts[0].kind in {LPAREN, RPAREN, OR, NOT} then [] else RawLeaves(Operand(ts[0], caseSensitive)))
      + Terms(ts[1..], caseSensitive)
  }

  predicate Reads(p: Parsed<Raw>, ts: seq<Token>, caseSensitive: bool) {
    p.Ok? ==>
      && Grown(p.value.0)
      && RawLeaves(p.value.0) + Terms(p.value.1, caseSensitive) == Terms(ts, caseSensitive)
  }

  predicate ReadsAll(p: Parsed<seq<Raw>>, ts: seq<Token>, caseSensitive: bool) {
    p.Ok? ==>
      && (forall raw <- p.value.0 :: Grown(raw))
      && RawLeavesAll(p.value.0) + Terms(p.value.1, caseSensitive) == Terms(ts, caseSensitive)
  }

  lemma LeavesOfGrouped(first: Raw, more: seq<Raw>, isOr: bool)
    ensures RawLeavesAll([first] + more) == RawLeaves(first) + RawLeavesAll(more)
    ensures RawLeaves(Grouped([first] + more, isOr)) == RawLeaves(first) + RawLeavesAll(more)
    ensures Grown(first) && (forall raw <- more :: Grown(raw)) ==> Grown(Grouped([first] + more, isOr))
  {
    assert ([first] + more)[1..] == more;
    if more == [] {
      assert [first] + more == [first];
    }
  }

  lemma ReadsBehind(first: (Raw, seq<Token>), tail: Parsed<seq<Raw>>, ts: seq<Token>, cs: bool, isOr: bool)
    requires Reads(Ok(first), ts, cs) && ReadsAll(tail, first.1, cs)
    ensures Reads(Joined(first.0, tail, isOr), ts, cs) && ReadsAll(After([first.0], tail), ts, cs)
  {
    hide RawLeaves, RawLeavesAll, Terms, Grown, Grouped;
    if tail.Ok? {
      LeavesOfGrouped(first.0, tail.value.0, isOr);
      assert (RawLeaves(first.0) + RawLeavesAll(tail.value.0)) + Terms(tail.value.1, cs)
          == RawLeaves(first.0) + (RawLeavesAll(tail.value.0) + Terms(tail.value.1, cs));
    }
  }

  lemma NegationReads(ts: seq<Token>, p: Parsed<Raw>, cs: bool)
    requires ts != [] && ts[0].kind == NOT && Reads(p, ts[1..], cs)
    ensures Reads(Negated(ts[0], p), ts, cs)
  {
  }

  lemma GroupReads(ts: seq<Token>, p: Parsed<Raw>, cs: bool)
    requires ts != [] && ts[0].kind == LPAREN && Reads(p, ts[1..], cs)
    ensures Reads(Closed(ts[0], p), ts, cs)
  {
    hide RawLeaves, Grown;
  }

  lemma OperandReads(ts: seq<Token>, cs: bool)
    requires ts != [] && ts[0].kind !in {LPAREN, RPAREN, OR, NOT}
    ensures Reads(Ok((Operand(ts[0], cs), ts[1..])), ts, cs)
  {
  }

  lemma {:induction false} PrimaryReads(ts: seq<Token>, depth: nat, c: Context)
    ensures Reads(Primary(ts, depth, c), ts, c.caseSensitive)
    decreases |ts|, 1
  {
    hide OrExpr, RawLeaves, Terms, Grown, Operand, Negated, Closed;
    if Primary(ts, depth, c).Ok? {
      if ts[0].kind == NOT {
        PrimaryReads(ts[1..], depth + 1, c);
        NegationReads(ts, Primary(ts[1..], depth + 1, c), c.caseSensitive);
      } else if ts[0].kind == LPAREN {
        OrExprReads(ts[1..], depth + 1, c);
        GroupReads(ts, OrExpr(ts[1..], depth + 1, c), c.caseSensitive);
      } else {
        OperandReads(ts, c.caseSensitive);
      }
    }
  }

  lemma {:induction false} AndTailReads(ts: seq<Token>, depth: nat, c: Context)
    ensures ReadsAll(AndTail(ts, depth, c), ts, c.caseSensitive)
    decreases |ts|, 2
  {
    hide Primary, Reads, RawLeaves, Terms;
    if !EndsAnd(ts) && Primary(ts, depth, c).Ok? {
      PrimaryReads(ts, depth, c);
      var first := Primary(ts, depth, c).value;
      AndTailReads(first.1, depth, c);
      ReadsBehind(first, AndTail(first.1, depth, c), ts, c.caseSensitive, false);
    }
  }

  lemma {:induction false} AndExprReads(ts: seq<Token>, depth: nat, c: Context)
    ensures Reads(AndExpr(ts, depth, c), ts, c.caseSensitive)
    decreases |ts|, 4
  {
    hide Primary, AndTail, ReadsAll, RawLeaves, Terms;
    PrimaryReads(ts, depth, c);
    if Primary(ts, depth, c).Ok? {
      var first := Primary(ts, depth, c).value;
      AndTailReads(first.1, depth, c);
      ReadsBehind(first, AndTail(first.1, depth, c), ts, c.caseSensitive, false);
    }
  }

  lemma {:induction false} OrTailReads(ts: seq<Token>, depth: nat, c: Context)
    ensures ReadsAll(OrTail(ts, depth, c), ts, c.caseSensitive)
    decreases |ts|, 3
  {
    hide AndExpr, Reads, RawLeaves;
    if ts != [] && ts[0].kind == OR && !EndsAnd(ts[1..]) && AndExpr(ts[1..], depth, c).Ok? {
      AndExprReads(ts[1..], depth, c);
      var first := AndExpr(ts[1..], depth, c).value;
      OrTailReads(first.1, depth, c);
      ReadsBehind(first, OrTail(first.1, depth, c), ts[1..], c.caseSensitive, true);
    }
  }

  lemma {:induction false} OrExprReads(ts: seq<Token>, depth: nat, c: Context)
    ensures Reads(OrExpr(ts, depth, c), ts, c.caseSensitive)
    decreases |ts|, 5
  {
    hide AndExpr, OrTail, ReadsAll, RawLeaves, Terms;
    AndExprReads(ts, depth, c);
    if AndExpr(ts, depth, c).Ok? {
      var first := AndExpr(ts, depth, c).value;
      OrTailReads(first.1, depth, c);
      ReadsBehind(first, OrTail(first.1, depth, c), ts, c.caseSensitive, true);
    }
  }

  /** No term of a query is lost, repeated or moved by its parse. */
  lemma TermsStayInOrder(query: string)
    requires Parse(query).Ok?
    ensures var ts := Tokens(query).value; LeavesOf(Parse(query).value) == Terms(ts, ResolveCase(ts))
  {
    hide Finalize, Terms, RawLeaves, OrExpr;
    var ts := Tokens(query).value;
    var c := Context(ResolveCase(ts), EofOf(ts));
    OrExprReads(ts, 0, c);
    NoTerms(c.caseSensitive);
    FinalizeShape(OrExpr(ts, 0, c).value.0);
  }

  lemma NoTerms(caseSensitive: bool)
    ensures Terms([], caseSensitive) == []
  {
  }
}
