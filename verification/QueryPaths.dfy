/** Where the leaves of a query tree stand, and under how many negations. */
module QueryPaths {
  import opened Wrappers
  import opened QueryAst

  function ChildrenOf(n: Node): seq<Node> {
    match n
    case Not(child) => [child]
    case And(children) => children
    case Or(children) => children
    case _ => []
  }

  /** The node a path of child indices leads to. */
  function Below(n: Node, path: seq<nat>): Option<Node>
    decreases |path|
  {
    if path == [] then Some(n)
    else if path[0] < |ChildrenOf(n)| then Below(ChildrenOf(n)[path[0]], path[1..])
    else None
  }

  /** How many negations stand above the end of the path. */
  function Negations(n: Node, path: seq<nat>): nat
    decreases |path|
  {
    if path == [] || path[0] >= |ChildrenOf(n)| then 0
    else (if n.Not? then 1 else 0) + Negations(ChildrenOf(n)[path[0]], path[1..])
  }

  lemma BelowChild(n: Node, i: nat, path: seq<nat>)
    requires i < |ChildrenOf(n)|
    ensures Below(n, [i] + path) == Below(ChildrenOf(n)[i], path)
    ensures Negations(n, [i] + path) == (if n.Not? then 1 else 0) + Negations(ChildrenOf(n)[i], path)
  {
    assert ([i] + path)[1..] == path;
  }

  /** The leaf stands somewhere under conjunctions and disjunctions only. */
  ghost predicate Affirms(n: Node, leaf: Node) {
    exists path: seq<nat> :: Below(n, path) == Some(leaf) && Negations(n, path) == 0
  }

  /** A leaf affirms itself, an operator what one of its operands affirms, and a negation nothing. */
  lemma AffirmsStep(n: Node, leaf: Node)
    requires IsLeaf(leaf)
    ensures Affirms(n, leaf) <==>
      n == leaf || ((n.And? || n.Or?) && exists c <- ChildrenOf(n) :: Affirms(c, leaf))
  {
    if Affirms(n, leaf) {
      var path: seq<nat> :| Below(n, path) == Some(leaf) && Negations(n, path) == 0;
      if path != [] {
        var c := ChildrenOf(n)[path[0]];
        assert Below(c, path[1..]) == Some(leaf) && Negations(c, path[1..]) == 0;
        assert c in ChildrenOf(n) && Affirms(c, leaf);
      }
    }
    if n == leaf {
      assert Below(n, []) == Some(leaf) && Negations(n, []) == 0;
    }
    if n.And? || n.Or? {
      if i :| 0 <= i < |ChildrenOf(n)| && Affirms(ChildrenOf(n)[i], leaf) {
        var path: seq<nat> :| Below(ChildrenOf(n)[i], path) == Some(leaf) && Negations(ChildrenOf(n)[i], path) == 0;
        BelowChild(n, i, path);
        assert Below(n, [i] + path) == Some(leaf);
      }
    }
  }
}
