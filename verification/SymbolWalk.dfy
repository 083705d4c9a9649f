/** The two-stack walk over a parse tree (indexer/symbols.py). */
module SymbolWalk {
  import opened Wrappers
  import opened Languages
  import ExtractStream

  /** A syntax node; `name` is the text of its name field. Rows are 0-based. */
  datatype Tree = Tree(kind: string, name: Option<string>, startRow: nat, endRow: nat, children: seq<Tree>)

  datatype Tag = Definition(kind: string) | Call | Import

  /** What a language makes of a node: its tag, and its edge extractors. */
  datatype Grammar = Grammar(
    tags: string -> Option<Tag>,
    callEdge: (Tree, Option<Symbol>) -> Option<Edge>,
    importEdges: (Tree, Option<Symbol>) -> seq<Edge>)

  /** The symbol a node defines; an anonymous definition defines none. */
  function Defined(g: Grammar, t: Tree): Option<Symbol> {
    match g.tags(t.kind)
    case Some(Definition(kind)) =>
      if t.name.Some? then Some(Symbol(t.name.value, kind, t.startRow + 1, t.endRow + 1)) else None
    case _ => None
  }

  function EdgesAt(g: Grammar, t: Tree, enclosing: Option<Symbol>): seq<Edge> {
    match g.tags(t.kind)
    case Some(Call) => (match g.callEdge(t, enclosing) case Some(e) => [e] case None => [])
    case Some(Import) => g.importEdges(t, enclosing)
    case _ => []
  }

  // ------------------------------------------------------------------ the declarative reading

  /** A node with its ancestors, outermost first. */
  datatype Placed = Placed(node: Tree, ancestors: seq<Tree>)

  /** Every node of the tree once, parents before children, children in order. */
  function Nodes(t: Tree, ancestors: seq<Tree>): seq<Placed> {
    [Placed(t, ancestors)] + NodesOfAll(t.children, ancestors + [t])
  }

  function NodesOfAll(ts: seq<Tree>, ancestors: seq<Tree>): seq<Placed> {
    if ts == [] then [] else Nodes(ts[0], ancestors) + NodesOfAll(ts[1..], ancestors)
  }

  /** The innermost ancestor that is a named definition. */
  function NearestNamed(g: Grammar, ancestors: seq<Tree>): Option<Symbol>
    decreases |ancestors|
  {
    if ancestors == [] then None
    else
      var n := |ancestors| - 1;
      if Defined(g, ancestors[n]).Some? then Defined(g, ancestors[n]) else NearestNamed(g, ancestors[..n])
  }

  /** A node with the symbol its edges are attributed to. */
  type Visit = (Tree, Option<Symbol>)

  function Attributed(g: Grammar, nodes: seq<Placed>): seq<Visit>
    decreases |nodes|
  {
    if nodes == [] then []
    else [(nodes[0].node, NearestNamed(g, nodes[0].ancestors))] + Attributed(g, nodes[1..])
  }

  function Emit(g: Grammar, v: Visit): FileExtraction {
    FileExtraction(if Defined(g, v.0).Some? then [Defined(g, v.0).value] else [], EdgesAt(g, v.0, v.1))
  }

  function Plus(a: FileExtraction, b: FileExtraction): FileExtraction {
    FileExtraction(a.symbols + b.symbols, a.edges + b.edges)
  }

  function EmitAll(g: Grammar, visits: seq<Visit>): FileExtraction
    decreases |visits|
  {
    if visits == [] then NO_EXTRACTION else Plus(Emit(g, visits[0]), EmitAll(g, visits[1..]))
  }

  /** Symbols and edges in preorder, each edge under its nearest named definition. */
  function Extracted(g: Grammar, root: Tree): FileExtraction {
    EmitAll(g, Attributed(g, Nodes(root, [])))
  }

  // ------------------------------------------------------------------ the walk's own reading

  /** The visits of a subtree when `enclosing` is handed down to it. */
  function Visits(g: Grammar, t: Tree, enclosing: Option<Symbol>): seq<Visit> {
    [(t, enclosing)] + VisitsOfAll(g, t.children, Handed(g, t, enclosing))
  }

  function VisitsOfAll(g: Grammar, ts: seq<Tree>, enclosing: Option<Symbol>): seq<Visit> {
    if ts == [] then [] else Visits(g, ts[0], enclosing) + VisitsOfAll(g, ts[1..], enclosing)
  }

  function Handed(g: Grammar, t: Tree, enclosing: Option<Symbol>): Option<Symbol> {
    if Defined(g, t).Some? then Defined(g, t) else enclosing
  }

  lemma {:induction false} AttributedConcat(g: Grammar, a: seq<Placed>, b: seq<Placed>)
    ensures Attributed(g, a + b) == Attributed(g, a) + Attributed(g, b)
    decreases |a|
  {
    hide NearestNamed;
    if a == [] {
      assert a + b == b;
    } else {
      AttributedConcat(g, a[1..], b);
      assert (a + b)[1..] == a[1..] + b;
    }
  }

  /** Handing the enclosing symbol down finds the nearest named ancestor. */
  lemma {:induction false} VisitsAreAttributed(g: Grammar, t: Tree, ancestors: seq<Tree>)
    ensures Visits(g, t, NearestNamed(g, ancestors)) == Attributed(g, Nodes(t, ancestors))
    decreases t, 1
  {
    var below := ancestors + [t];
    assert below[..|ancestors|] == ancestors;
    assert NearestNamed(g, below) == Handed(g, t, NearestNamed(g, ancestors));
    VisitsOfAllAreAttributed(g, t.children, below);
    var nodes := Nodes(t, ancestors);
    assert nodes[1..] == NodesOfAll(t.children, below);
  }

  lemma {:induction false} VisitsOfAllAreAttributed(g: Grammar, ts: seq<Tree>, ancestors: seq<Tree>)
    ensures VisitsOfAll(g, ts, NearestNamed(g, ancestors)) == Attributed(g, NodesOfAll(ts, ancestors))
    decreases ts, 0
  {
    hide NearestNamed, Nodes, Visits, Handed, Attributed;
    if ts == [] {
      NoneAttributed(g);
    } else {
      VisitsAreAttributed(g, ts[0], ancestors);
      VisitsOfAllAreAttributed(g, ts[1..], ancestors);
      AttributedConcat(g, Nodes(ts[0], ancestors), NodesOfAll(ts[1..], ancestors));
    }
  }

  lemma NoneAttributed(g: Grammar)
    ensures Attributed(g, []) == []
  {
  }

  // ------------------------------------------------------------------ the stacks

  /** What the two stacks still have to visit, the top first. */
  function Pending(g: Grammar, nodes: seq<Tree>, enclosings: seq<Option<Symbol>>): seq<Visit>
    requires |nodes| == |enclosings|
    decreases |nodes|
  {
    if nodes == [] then []
    else
      var n := |nodes| - 1;
      Visits(g, nodes[n], enclosings[n]) + Pending(g, nodes[..n], enclosings[..n])
  }

  function Reversed(ts: seq<Tree>): (r: seq<Tree>)
    ensures |r| == |ts|
    decreases |ts|
  {
    if ts == [] then [] else Reversed(ts[1..]) + [ts[0]]
  }

  /** Pushing the children in reverse under one enclosing symbol schedules them in order. */
  lemma {:induction false} PendingAfterPush(
    g: Grammar, nodes: seq<Tree>, enclosings: seq<Option<Symbol>>, ts: seq<Tree>, enclosing: Option<Symbol>)
    requires |nodes| == |enclosings|
    ensures Pending(g, nodes + Reversed(ts), enclosings + seq(|ts|, _ => enclosing))
      == VisitsOfAll(g, ts, enclosing) + Pending(g, nodes, enclosings)
    decreases |ts|
  {
    hide Visits;
    var run := seq(|ts|, _ => enclosing);
    if ts == [] {
      assert nodes + Reversed(ts) == nodes && enclosings + run == enclosings;
    } else {
      var allNodes, allEnclosings := nodes + Reversed(ts), enclosings + run;
      var n := |allNodes| - 1;
      assert allNodes[n] == ts[0] && allNodes[..n] == nodes + Reversed(ts[1..]);
      assert allEnclosings[n] == enclosing && allEnclosings[..n] == enclosings + seq(|ts[1..]|, _ => enclosing);
      PendingAfterPush(g, nodes, enclosings, ts[1..], enclosing);
    }
  }

  /** One turn of the walk visits the top of the stacks and schedules its children. */
  lemma WalkStep(g: Grammar, nodes: seq<Tree>, enclosings: seq<Option<Symbol>>)
    requires |nodes| == |enclosings| > 0
    ensures var n := |nodes| - 1;
      var t, enclosing := nodes[n], enclosings[n];
      Pending(g, nodes, enclosings) == [(t, enclosing)] + Pending(g, nodes[..n] + Reversed(t.children),
        enclosings[..n] + seq(|t.children|, _ => Handed(g, t, enclosing)))
  {
    var n := |nodes| - 1;
    var t, enclosing := nodes[n], enclosings[n];
    PendingAfterPush(g, nodes[..n], enclosings[..n], t.children, Handed(g, t, enclosing));
    hide Handed, VisitsOfAll;
    var below := VisitsOfAll(g, t.children, Handed(g, t, enclosing));
    var rest := Pending(g, nodes[..n], enclosings[..n]);
    assert ([(t, enclosing)] + below) + rest == [(t, enclosing)] + (below + rest);
  }

  lemma PlusAssociates(a: FileExtraction, b: FileExtraction, c: FileExtraction)
    ensures Plus(Plus(a, b), c) == Plus(a, Plus(b, c))
  {
    assert (a.symbols + b.symbols) + c.symbols == a.symbols + (b.symbols + c.symbols);
    assert (a.edges + b.edges) + c.edges == a.edges + (b.edges + c.edges);
  }

  lemma EmitFirst(g: Grammar, done: FileExtraction, v: Visit, rest: seq<Visit>)
    ensures Plus(done, EmitAll(g, [v] + rest)) == Plus(Plus(done, Emit(g, v)), EmitAll(g, rest))
  {
    hide Emit;
    assert ([v] + rest)[1..] == rest;
    PlusAssociates(done, Emit(g, v), EmitAll(g, rest));
  }

  lemma WalkStarts(g: Grammar, root: Tree)
    ensures Plus(NO_EXTRACTION, EmitAll(g, Pending(g, [root], [None]))) == Extracted(g, root)
  {
    VisitsAreAttributed(g, root, []);
    hide Visits, EmitAll, Nodes, Attributed;
    assert [root][..0] == [] && Visits(g, root, None) + [] == Visits(g, root, None);
    var all := Extracted(g, root);
    assert [] + all.symbols == all.symbols && [] + all.edges == all.edges;
  }

  lemma NothingPending(g: Grammar, done: FileExtraction)
    ensures Plus(done, EmitAll(g, Pending(g, [], []))) == done
  {
    assert done.symbols + [] == done.symbols && done.edges + [] == done.edges;
  }

  /**
   The walk: two stacks of equal length, popped together; a node's children are
   pushed in reverse under the symbol it hands down.
   */
  method Walk(g: Grammar, root: Tree) returns (r: FileExtraction)
    ensures r == Extracted(g, root)
  {
    hide Pending, EmitAll, Extracted, Plus, Emit;
    var symbols: seq<Symbol>, edges: seq<Edge> := [], [];
    var nodeStack, enclosingStack: seq<Option<Symbol>> := [root], [None];
    WalkStarts(g, root);
    while nodeStack != []
      invariant |nodeStack| == |enclosingStack|
      invariant Plus(FileExtraction(symbols, edges), EmitAll(g, Pending(g, nodeStack, enclosingStack))) == Extracted(g, root)
      decreases |Pending(g, nodeStack, enclosingStack)|
    {
      var top := |nodeStack| - 1;
      var node, enclosing := nodeStack[top], enclosingStack[top];
      WalkStep(g, nodeStack, enclosingStack);
      ghost var done := FileExtraction(symbols, edges);
      symbols, edges := VisitNode(g, node, enclosing, symbols, edges);
      var childEnclosing := Handed(g, node, enclosing);
      nodeStack := nodeStack[..top] + Reversed(node.children);
      enclosingStack := enclosingStack[..top] + seq(|node.children|, _ => childEnclosing);
      EmitFirst(g, done, (node, enclosing), Pending(g, nodeStack, enclosingStack));
    }
    NothingPending(g, FileExtraction(symbols, edges));
    r := FileExtraction(symbols, edges);
  }

  /** Emit what one node contributes behind what is already there. */
  method VisitNode(g: Grammar, node: Tree, enclosing: Option<Symbol>, symbols: seq<Symbol>, edges: seq<Edge>)
    returns (newSymbols: seq<Symbol>, newEdges: seq<Edge>)
    ensures FileExtraction(newSymbols, newEdges) == Plus(FileExtraction(symbols, edges), Emit(g, (node, enclosing)))
  {
    newSymbols, newEdges := symbols, edges;
    match g.tags(node.kind)
    case None =>
    case Some(Definition(kind)) =>
      if node.name.Some? {
        newSymbols := symbols + [Symbol(node.name.value, kind, node.startRow + 1, node.endRow + 1)];
      }
    case Some(Call) =>
      var edge := g.callEdge(node, enclosing);
      if edge.Some? {
        newEdges := edges + [edge.value];
      }
    case Some(Import) =>
      newEdges := edges + g.importEdges(node, enclosing);
  }

  // ------------------------------------------------------------------ extract_file

  /** The grammars the extractor knows, and the parser of each. */
  datatype Toolbox = Toolbox(grammar: string -> Grammar, parse: (string, string) -> Tree)

  function ExtractFile(tools: Toolbox, pf: ParsedFile): FileExtraction {
    if !NeedsParse(pf) then NO_EXTRACTION
    else Extracted(tools.grammar(pf.lang.value), tools.parse(pf.lang.value, pf.content))
  }

  method ExtractOne(tools: Toolbox, pf: ParsedFile) returns (r: FileExtraction)
    ensures r == ExtractFile(tools, pf)
  {
    if pf.lang.None? {
      return NO_EXTRACTION;
    }
    if pf.lang.value !in SYMBOL_LANGUAGES {
      return NO_EXTRACTION;
    }
    r := Walk(tools.grammar(pf.lang.value), tools.parse(pf.lang.value, pf.content));
  }

  /** The extractor short-circuits exactly where the pool answers locally. */
  lemma ExtractFileShortCircuits(tools: Toolbox)
    ensures ExtractStream.ShortCircuits(pf => ExtractFile(tools, pf))
  {
  }

  /** Each visited node appears once: the walk's visits are the tree's nodes, in preorder. */
  lemma VisitsArePreorder(g: Grammar, root: Tree, i: nat)
    requires i < |Nodes(root, [])|
    ensures |Visits(g, root, None)| == |Nodes(root, [])|
    ensures var place := Nodes(root, [])[i];
      Visits(g, root, None)[i] == (place.node, NearestNamed(g, place.ancestors))
  {
    VisitsAreAttributed(g, root, []);
    AttributedAt(g, Nodes(root, []), i);
  }

  lemma {:induction false} AttributedAt(g: Grammar, nodes: seq<Placed>, i: nat)
    requires i < |nodes|
    ensures |Attributed(g, nodes)| == |nodes|
    ensures Attributed(g, nodes)[i] == (nodes[i].node, NearestNamed(g, nodes[i].ancestors))
    decreases |nodes|
  {
    hide NearestNamed;
    if |nodes| > 1 {
      AttributedAt(g, nodes[1..], if i > 0 then i - 1 else 0);
    }
  }

  // ------------------------------------------------------------------ what is extracted

  /** A node of the tree, named, that the language calls a definition: its lines count from 1. */
  predicate DefinedBy(g: Grammar, t: Tree, s: Symbol) {
    && t.name == Some(s.name) && g.tags(t.kind) == Some(Definition(s.kind))
    && s.startLine == t.startRow + 1 && s.endLine == t.endRow + 1
  }

  /** The innermost named definition around a place. */
  ghost predicate EnclosedBy(g: Grammar, ancestors: seq<Tree>, enclosing: Option<Symbol>) {
    if enclosing.None? then forall a <- ancestors, s :: !DefinedBy(g, a, s)
    else exists i | 0 <= i < |ancestors| ::
      DefinedBy(g, ancestors[i], enclosing.value)
      && forall j, s | i < j < |ancestors| :: !DefinedBy(g, ancestors[j], s)
  }

  lemma DefinedExactlyWhen(g: Grammar, t: Tree, s: Symbol)
    ensures Defined(g, t) == Some(s) <==> DefinedBy(g, t, s)
  {
  }

  lemma {:induction false} NearestEncloses(g: Grammar, ancestors: seq<Tree>)
    ensures EnclosedBy(g, ancestors, NearestNamed(g, ancestors))
    decreases |ancestors|
  {
    if ancestors != [] {
      var n := |ancestors| - 1;
      var front, last := ancestors[..n], ancestors[n];
      assert ancestors == front + [last];
      forall s
        ensures Defined(g, last) == Some(s) <==> DefinedBy(g, last, s)
      {
        DefinedExactlyWhen(g, last, s);
      }
      hide DefinedBy, Defined;
      if Defined(g, last).None? {
        NearestEncloses(g, front);
        if NearestNamed(g, front).Some? {
          var i :| 0 <= i < |front| && DefinedBy(g, front[i], NearestNamed(g, front).value)
            && forall j, s | i < j < |front| :: !DefinedBy(g, front[j], s);
          assert DefinedBy(g, ancestors[i], NearestNamed(g, front).value);
        }
      }
    }
  }

  /** An edge a place contributes: a call's, or one of an import's, attributed to what encloses the place. */
  ghost predicate EdgeOf(g: Grammar, p: Placed, e: Edge) {
    exists enclosing: Option<Symbol> :: EnclosedBy(g, p.ancestors, enclosing) && (
      || (g.tags(p.node.kind) == Some(Call) && g.callEdge(p.node, enclosing) == Some(e))
      || (g.tags(p.node.kind) == Some(Import) && e in g.importEdges(p.node, enclosing)))
  }

  lemma {:induction false} EmittedAt(g: Grammar, visits: seq<Visit>)
    ensures forall s :: s in EmitAll(g, visits).symbols <==> exists v <- visits :: Defined(g, v.0) == Some(s)
    ensures forall e :: e in EmitAll(g, visits).edges <==> exists v <- visits :: e in EdgesAt(g, v.0, v.1)
    decreases |visits|
  {
    hide Defined, EdgesAt;
    if visits != [] {
      EmittedAt(g, visits[1..]);
      assert visits == [visits[0]] + visits[1..];
      forall s
        ensures s in Emit(g, visits[0]).symbols <==> Defined(g, visits[0].0) == Some(s)
      {
      }
    }
  }

  lemma EnclosingIsUnique(g: Grammar, ancestors: seq<Tree>, a: Option<Symbol>, b: Option<Symbol>)
    requires EnclosedBy(g, ancestors, a) && EnclosedBy(g, ancestors, b)
    ensures a == b
  {
  }

  lemma EdgeOfPlace(g: Grammar, p: Placed, e: Edge)
    ensures e in EdgesAt(g, p.node, NearestNamed(g, p.ancestors)) <==> EdgeOf(g, p, e)
  {
    NearestEncloses(g, p.ancestors);
    hide EnclosedBy, NearestNamed;
    if EdgeOf(g, p, e) {
      var enclosing: Option<Symbol> :| EnclosedBy(g, p.ancestors, enclosing) && (
        || (g.tags(p.node.kind) == Some(Call) && g.callEdge(p.node, enclosing) == Some(e))
        || (g.tags(p.node.kind) == Some(Import) && e in g.importEdges(p.node, enclosing)));
      EnclosingIsUnique(g, p.ancestors, enclosing, NearestNamed(g, p.ancestors));
    }
  }

  lemma {:induction false} VisitsOfPlaces(g: Grammar, nodes: seq<Placed>, v: Visit)
    ensures v in Attributed(g, nodes) <==> exists p <- nodes :: v == (p.node, NearestNamed(g, p.ancestors))
    decreases |nodes|
  {
    hide NearestNamed;
    if nodes != [] {
      VisitsOfPlaces(g, nodes[1..], v);
      assert nodes == [nodes[0]] + nodes[1..];
    }
  }

  /**
   What is extracted of a file: a symbol for exactly each named definition of its
   tree, its lines the rows of the node plus one, and exactly the edges of its calls
   and imports, each attributed to the innermost named definition around it.
   */
  lemma ExtractedExactly(g: Grammar, root: Tree)
    ensures forall s :: s in Extracted(g, root).symbols <==> exists p <- Nodes(root, []) :: DefinedBy(g, p.node, s)
    ensures forall e :: e in Extracted(g, root).edges <==> exists p <- Nodes(root, []) :: EdgeOf(g, p, e)
  {
    var nodes := Nodes(root, []);
    EmittedAt(g, Attributed(g, nodes));
    hide Nodes, Attributed, EmitAll, NearestNamed, Defined, DefinedBy, EdgesAt, EdgeOf;
    forall v: Visit
      ensures v in Attributed(g, nodes) <==> exists p <- nodes :: v == (p.node, NearestNamed(g, p.ancestors))
    {
      VisitsOfPlaces(g, nodes, v);
    }
    forall p, s | p in nodes
      ensures Defined(g, p.node) == Some(s) <==> DefinedBy(g, p.node, s)
    {
      DefinedExactlyWhen(g, p.node, s);
    }
    forall p, e | p in nodes
      ensures e in EdgesAt(g, p.node, NearestNamed(g, p.ancestors)) <==> EdgeOf(g, p, e)
    {
      EdgeOfPlace(g, p, e);
    }
    assert forall p <- nodes :: (p.node, NearestNamed(g, p.ancestors)) in Attributed(g, nodes);
  }
}
