/** Import edges of a Rust use declaration (indexer/symbols.py). */
module UseTrees {
  import opened Wrappers
  import opened Languages

  /**
   A use tree: a path, a renamed path, a wildcard, `self`, or a list of trees under
   a path or under none. A text that the parser does not have is None.
   */
  datatype UseTree =
    | SelfItem(line: nat)
    | Path(text: Option<string>, line: nat)
    | Renamed(text: Option<string>, line: nat)
    | Wildcard(text: Option<string>, line: nat)
    | Scoped(path: Option<string>, items: seq<UseTree>)
    | Group(items: seq<UseTree>)
    | OtherNode

  const SEPARATOR := "::"

  function JoinPath(prefix: string, segment: string): string {
    if prefix == "" then segment else prefix + SEPARATOR + segment
  }

  // ------------------------------------------------------------------ the declarative reading

  /** The segments on the way from the root to a leaf; a leaf that adds none needs some above it. */
  datatype Route = Route(segments: seq<string>, line: nat, needsPrefix: bool)

  function Routes(t: UseTree, above: seq<string>): seq<Route> {
    match t
    case SelfItem(line) => [Route(above, line, true)]
    case Path(text, line) => if text.Some? then [Route(above + [text.value], line, false)] else []
    case Renamed(text, line) => if text.Some? then [Route(above + [text.value], line, false)] else []
    case Wildcard(text, line) => [Route(if text.Some? then above + [text.value] else above, line, true)]
    case Scoped(path, items) => RoutesOfAll(items, if path.Some? then above + [path.value] else above)
    case Group(items) => RoutesOfAll(items, above)
    case OtherNode => []
  }

  function RoutesOfAll(ts: seq<UseTree>, above: seq<string>): seq<Route> {
    if ts == [] then [] else RoutesOfAll(ts[..|ts| - 1], above) + Routes(ts[|ts| - 1], above)
  }

  /** The segments with a separator between any two, empty ones in front left out. */
  function Spelled(segments: seq<string>): string
    decreases |segments|
  {
    if segments == [] then ""
    else if segments[0] == "" then Spelled(segments[1..])
    else segments[0] + Continued(segments[1..])
  }

  function Continued(segments: seq<string>): string
    decreases |segments|
  {
    if segments == [] then "" else SEPARATOR + segments[0] + Continued(segments[1..])
  }

  function EdgesOf(routes: seq<Route>, enclosing: Option<Symbol>): seq<Edge>
    decreases |routes|
  {
    if routes == [] then []
    else
      var r := routes[|routes| - 1];
      EdgesOf(routes[..|routes| - 1], enclosing)
      + if r.needsPrefix && Spelled(r.segments) == "" then []
        else [Edge("import", Spelled(r.segments), r.line, enclosing)]
  }

  // ------------------------------------------------------------------ prefixes are spelled routes

  lemma {:induction false} ContinuedSnoc(segments: seq<string>, segment: string)
    ensures Continued(segments + [segment]) == Continued(segments) + SEPARATOR + segment
    decreases |segments|
  {
    if segments == [] {
      assert [segment][1..] == [];
    } else {
      ContinuedSnoc(segments[1..], segment);
      assert (segments + [segment])[1..] == segments[1..] + [segment];
    }
  }

  /** Joining one more segment to the spelling of a route spells the longer route. */
  lemma {:induction false} SpelledSnoc(segments: seq<string>, segment: string)
    ensures Spelled(segments + [segment]) == JoinPath(Spelled(segments), segment)
    decreases |segments|
  {
    if segments == [] {
      assert [segment][1..] == [];
    } else {
      assert (segments + [segment])[1..] == segments[1..] + [segment];
      if segments[0] == "" {
        SpelledSnoc(segments[1..], segment);
      } else {
        ContinuedSnoc(segments[1..], segment);
      }
    }
  }

  lemma {:induction false} EdgesConcat(a: seq<Route>, b: seq<Route>, enclosing: Option<Symbol>)
    ensures EdgesOf(a + b, enclosing) == EdgesOf(a, enclosing) + EdgesOf(b, enclosing)
    decreases |b|
  {
    if b == [] {
      assert a + b == a;
    } else {
      EdgesConcat(a, b[..|b| - 1], enclosing);
      assert (a + b)[..|a + b| - 1] == a + b[..|b| - 1];
    }
  }

  lemma OneEdge(r: Route, enclosing: Option<Symbol>)
    ensures EdgesOf([r], enclosing) ==
      if r.needsPrefix && Spelled(r.segments) == "" then [] else [Edge("import", Spelled(r.segments), r.line, enclosing)]
  {
    assert EdgesOf([r][..0], enclosing) == [];
  }

  // ------------------------------------------------------------------ the descent

  /** The recursive descent: `prefix` is the spelling of the path above the node. */
  method UseTreeEdges(t: UseTree, prefix: string, enclosing: Option<Symbol>, ghost above: seq<string>)
    returns (edges: seq<Edge>)
    requires prefix == Spelled(above)
    ensures edges == EdgesOf(Routes(t, above), enclosing)
    decreases t, 1
  {
    match t
    case SelfItem(line) =>
      OneEdge(Route(above, line, true), enclosing);
      edges := if prefix != "" then [Edge("import", prefix, line, enclosing)] else [];
    case Path(text, line) =>
      edges := PathEdge(text, line, prefix, enclosing, above);
    case Renamed(text, line) =>
      edges := PathEdge(text, line, prefix, enclosing, above);
    case Wildcard(text, line) =>
      if text.Some? {
        SpelledSnoc(above, text.value);
      }
      var target := if text.Some? then JoinPath(prefix, text.value) else prefix;
      OneEdge(Route(if text.Some? then above + [text.value] else above, line, true), enclosing);
      edges := if target == "" then [] else [Edge("import", target, line, enclosing)];
    case Scoped(path, items) =>
      if path.Some? {
        SpelledSnoc(above, path.value);
      }
      edges := ListEdges(t, items, if path.Some? then JoinPath(prefix, path.value) else prefix, enclosing,
                         if path.Some? then above + [path.value] else above);
    case Group(items) =>
      edges := ListEdges(t, items, prefix, enclosing, above);
    case OtherNode =>
      edges := [];
  }

  method PathEdge(text: Option<string>, line: nat, prefix: string, enclosing: Option<Symbol>, ghost above: seq<string>)
    returns (edges: seq<Edge>)
    requires prefix == Spelled(above)
    ensures edges == EdgesOf(Routes(Path(text, line), above), enclosing)
  {
    if text.None? {
      return [];
    }
    SpelledSnoc(above, text.value);
    OneEdge(Route(above + [text.value], line, false), enclosing);
    edges := [Edge("import", JoinPath(prefix, text.value), line, enclosing)];
  }

  method ListEdges(
    ghost t: UseTree, items: seq<UseTree>, prefix: string, enclosing: Option<Symbol>, ghost above: seq<string>)
    returns (edges: seq<Edge>)
    requires prefix == Spelled(above) && forall i | 0 <= i < |items| :: items[i] < t
    ensures edges == EdgesOf(RoutesOfAll(items, above), enclosing)
    decreases t, 0
  {
    edges := [];
    for i := 0 to |items|
      invariant edges == EdgesOf(RoutesOfAll(items[..i], above), enclosing)
    {
      var more := UseTreeEdges(items[i], prefix, enclosing, above);
      assert items[..i + 1][..i] == items[..i];
      EdgesConcat(RoutesOfAll(items[..i], above), Routes(items[i], above), enclosing);
      edges := edges + more;
    }
    assert items[..|items|] == items;
  }

  /** The edges of a whole use declaration. */
  method ImportEdges(argument: Option<UseTree>, enclosing: Option<Symbol>) returns (edges: seq<Edge>)
    ensures edges == if argument.None? then [] else EdgesOf(Routes(argument.value, []), enclosing)
  {
    if argument.None? {
      return [];
    }
    edges := UseTreeEdges(argument.value, "", enclosing, []);
  }

  // ------------------------------------------------------------------ nesting is abbreviation

  /** Only the spelling of what stands above a tree matters to its edges. */
  lemma {:induction false} SpellingDecides(t: UseTree, a: seq<string>, b: seq<string>, enclosing: Option<Symbol>)
    requires Spelled(a) == Spelled(b)
    ensures EdgesOf(Routes(t, a), enclosing) == EdgesOf(Routes(t, b), enclosing)
    decreases t, 1
  {
    match t
    case SelfItem(line) =>
      OneEdge(Route(a, line, true), enclosing);
      OneEdge(Route(b, line, true), enclosing);
    case Path(text, line) =>
      LeafSpelling(text, line, false, a, b, enclosing);
    case Renamed(text, line) =>
      LeafSpelling(text, line, false, a, b, enclosing);
    case Wildcard(text, line) =>
      LeafSpelling(text, line, true, a, b, enclosing);
      OneEdge(Route(a, line, true), enclosing);
      OneEdge(Route(b, line, true), enclosing);
    case Scoped(path, items) =>
      if path.Some? {
        SpelledSnoc(a, path.value);
        SpelledSnoc(b, path.value);
        SpellingDecidesAll(t, items, a + [path.value], b + [path.value], enclosing);
      } else {
        SpellingDecidesAll(t, items, a, b, enclosing);
      }
    case Group(items) =>
      SpellingDecidesAll(t, items, a, b, enclosing);
    case OtherNode =>
  }

  lemma LeafSpelling(text: Option<string>, line: nat, needsPrefix: bool, a: seq<string>, b: seq<string>,
                     enclosing: Option<Symbol>)
    requires Spelled(a) == Spelled(b)
    ensures text.Some? ==>
      EdgesOf([Route(a + [text.value], line, needsPrefix)], enclosing)
      == EdgesOf([Route(b + [text.value], line, needsPrefix)], enclosing)
  {
    if text.Some? {
      SpelledSnoc(a, text.value);
      SpelledSnoc(b, text.value);
      OneEdge(Route(a + [text.value], line, needsPrefix), enclosing);
      OneEdge(Route(b + [text.value], line, needsPrefix), enclosing);
    }
  }

  lemma {:induction false} SpellingDecidesAll(
    t: UseTree, ts: seq<UseTree>, a: seq<string>, b: seq<string>, enclosing: Option<Symbol>)
    requires Spelled(a) == Spelled(b) && forall i | 0 <= i < |ts| :: ts[i] < t
    ensures EdgesOf(RoutesOfAll(ts, a), enclosing) == EdgesOf(RoutesOfAll(ts, b), enclosing)
    decreases t, 0, |ts|
  {
    if ts != [] {
      var n := |ts| - 1;
      SpellingDecidesAll(t, ts[..n], a, b, enclosing);
      SpellingDecides(ts[n], a, b, enclosing);
      EdgesConcat(RoutesOfAll(ts[..n], a), Routes(ts[n], a), enclosing);
      EdgesConcat(RoutesOfAll(ts[..n], b), Routes(ts[n], b), enclosing);
    }
  }

  lemma JoinAssociates(a: string, b: string, c: string)
    requires b != ""
    ensures JoinPath(JoinPath(a, b), c) == JoinPath(a, JoinPath(b, c))
  {
    if a != "" {
      assert a + SEPARATOR + b + SEPARATOR + c == a + SEPARATOR + (b + SEPARATOR + c);
    }
  }

  lemma OnlyItem(t: UseTree, above: seq<string>)
    ensures RoutesOfAll([t], above) == Routes(t, above)
  {
    assert [t][..0] == [];
    assert RoutesOfAll([t][..0], above) == [];
  }

  /** A list nested under two paths imports what it imports under their joined path. */
  lemma NestingIsJoining(outer: string, inner: string, items: seq<UseTree>, above: seq<string>, enclosing: Option<Symbol>)
    requires outer != ""
    ensures EdgesOf(Routes(Scoped(Some(outer), [Scoped(Some(inner), items)]), above), enclosing)
         == EdgesOf(Routes(Scoped(Some(JoinPath(outer, inner)), items), above), enclosing)
  {
    OnlyItem(Scoped(Some(inner), items), above + [outer]);
    SpelledSnoc(above, outer);
    SpelledSnoc(above + [outer], inner);
    SpelledSnoc(above, JoinPath(outer, inner));
    JoinAssociates(Spelled(above), outer, inner);
    SpellingDecides(Group(items), above + [outer] + [inner], above + [JoinPath(outer, inner)], enclosing);
  }

  /** A list imports what its items import one by one, in order. */
  lemma {:induction false} ListsAbbreviate(
    path: Option<string>, front: seq<UseTree>, back: seq<UseTree>, above: seq<string>, enclosing: Option<Symbol>)
    ensures EdgesOf(Routes(Scoped(path, front + back), above), enclosing)
         == EdgesOf(Routes(Scoped(path, front), above), enclosing) + EdgesOf(Routes(Scoped(path, back), above), enclosing)
  {
    var under := if path.Some? then above + [path.value] else above;
    RoutesConcat(front, back, under);
    EdgesConcat(RoutesOfAll(front, under), RoutesOfAll(back, under), enclosing);
  }

  lemma {:induction false} RoutesConcat(front: seq<UseTree>, back: seq<UseTree>, above: seq<string>)
    ensures RoutesOfAll(front + back, above) == RoutesOfAll(front, above) + RoutesOfAll(back, above)
    decreases |back|
  {
    if back == [] {
      assert front + back == front;
    } else {
      RoutesConcat(front, back[..|back| - 1], above);
      assert (front + back)[..|front + back| - 1] == front + back[..|back| - 1];
    }
  }

  // ------------------------------------------------------------------ leaf by leaf

  function ItemsOf(t: UseTree): seq<UseTree> {
    match t
    case Scoped(_, items) => items
    case Group(items) => items
    case _ => []
  }

  /** The tree a path of item indices leads to. */
  function Below(t: UseTree, path: seq<nat>): Option<UseTree>
    decreases |path|
  {
    if path == [] then Some(t)
    else if path[0] < |ItemsOf(t)| then Below(ItemsOf(t)[path[0]], path[1..])
    else None
  }

  /** The paths of the lists on the way there, outermost first. */
  function PathsAbove(t: UseTree, path: seq<nat>): seq<string>
    decreases |path|
  {
    if path == [] || path[0] >= |ItemsOf(t)| then []
    else (if t.Scoped? && t.path.Some? then [t.path.value] else []) + PathsAbove(ItemsOf(t)[path[0]], path[1..])
  }

  /** A leaf under these paths imports `segments`: its own text behind them, if it has one. */
  predicate LeafImports(leaf: UseTree, above: seq<string>, r: Route) {
    match leaf
    case SelfItem(line) => r.segments == above && r.line == line && r.needsPrefix
    case Path(text, line) => text.Some? && r.segments == above + [text.value] && r.line == line && !r.needsPrefix
    case Renamed(text, line) => text.Some? && r.segments == above + [text.value] && r.line == line && !r.needsPrefix
    case Wildcard(text, line) =>
      r.segments == (if text.Some? then above + [text.value] else above) && r.line == line && r.needsPrefix
    case _ => false
  }

  /** Some leaf of the tree, at the end of some path, imports the route. */
  ghost predicate SomeLeafImports(t: UseTree, above: seq<string>, r: Route) {
    exists path: seq<nat> :: Below(t, path).Some? && LeafImports(Below(t, path).value, above + PathsAbove(t, path), r)
  }

  function Under(t: UseTree, above: seq<string>): seq<string> {
    if t.Scoped? && t.path.Some? then above + [t.path.value] else above
  }

  lemma ItemImports(t: UseTree, above: seq<string>, r: Route, i: nat)
    requires i < |ItemsOf(t)| && SomeLeafImports(ItemsOf(t)[i], Under(t, above), r)
    ensures SomeLeafImports(t, above, r)
  {
    hide LeafImports;
    var x := ItemsOf(t)[i];
    var path: seq<nat> :|
      Below(x, path).Some? && LeafImports(Below(x, path).value, Under(t, above) + PathsAbove(x, path), r);
    assert ([i] + path)[1..] == path;
    assert above + PathsAbove(t, [i] + path) == Under(t, above) + PathsAbove(x, path);
    assert Below(t, [i] + path) == Below(x, path);
  }

  lemma ImportedByItem(t: UseTree, above: seq<string>, r: Route)
    requires SomeLeafImports(t, above, r)
    ensures LeafImports(t, above, r) || exists x <- ItemsOf(t) :: SomeLeafImports(x, Under(t, above), r)
  {
    hide LeafImports;
    var path: seq<nat> :| Below(t, path).Some? && LeafImports(Below(t, path).value, above + PathsAbove(t, path), r);
    if path == [] {
      assert above + [] == above;
    } else {
      var x := ItemsOf(t)[path[0]];
      assert above + PathsAbove(t, path) == Under(t, above) + PathsAbove(x, path[1..]);
      assert x in ItemsOf(t) && SomeLeafImports(x, Under(t, above), r);
    }
  }

  lemma LeafStep(t: UseTree, above: seq<string>, r: Route)
    ensures SomeLeafImports(t, above, r) <==>
      LeafImports(t, above, r) || exists x <- ItemsOf(t) :: SomeLeafImports(x, Under(t, above), r)
  {
    if SomeLeafImports(t, above, r) {
      ImportedByItem(t, above, r);
    }
    if LeafImports(t, above, r) {
      assert above + PathsAbove(t, []) == above && Below(t, []) == Some(t);
    }
    hide SomeLeafImports;
    if i :| 0 <= i < |ItemsOf(t)| && SomeLeafImports(ItemsOf(t)[i], Under(t, above), r) {
      ItemImports(t, above, r, i);
    }
  }

  /** The routes of a tree are exactly those its leaves import under the paths on the way to them. */
  lemma {:induction false} RoutesExactly(t: UseTree, above: seq<string>, r: Route)
    ensures r in Routes(t, above) <==> SomeLeafImports(t, above, r)
    decreases t, 1
  {
    LeafStep(t, above, r);
    hide SomeLeafImports;
    match t
    case Scoped(path, items) => RoutesOfAllExactly(t, items, Under(t, above), r);
    case Group(items) => RoutesOfAllExactly(t, items, Under(t, above), r);
    case _ =>
  }

  lemma {:induction false} RoutesOfAllExactly(t: UseTree, ts: seq<UseTree>, above: seq<string>, r: Route)
    requires forall i | 0 <= i < |ts| :: ts[i] < t
    ensures r in RoutesOfAll(ts, above) <==> exists x <- ts :: SomeLeafImports(x, above, r)
    decreases t, 0, |ts|
  {
    hide SomeLeafImports, Routes;
    if ts != [] {
      var n := |ts| - 1;
      RoutesOfAllExactly(t, ts[..n], above, r);
      RoutesExactly(ts[n], above, r);
      assert ts == ts[..n] + [ts[n]];
    }
  }

  /** An edge stands for each route that is spelled, or needs no path in front. */
  lemma {:induction false} EdgesExactly(routes: seq<Route>, enclosing: Option<Symbol>, e: Edge)
    ensures e in EdgesOf(routes, enclosing) <==> exists r <- routes ::
      (!r.needsPrefix || Spelled(r.segments) != "") && e == Edge("import", Spelled(r.segments), r.line, enclosing)
    decreases |routes|
  {
    hide Spelled;
    if routes != [] {
      var n := |routes| - 1;
      EdgesExactly(routes[..n], enclosing, e);
      assert routes == routes[..n] + [routes[n]];
    }
  }
}
