/** The query tree (app/query/parser.py): leaves, lexical negation and n-ary conjunction and disjunction. */
module QueryAst {

  datatype Node =
    | Substring(value: string, caseSensitive: bool)
    | Regex(pattern: string, caseSensitive: bool)
    | RepoFilter(repo: string)
    | PathFilter(path: string)
    | LangFilter(lang: string)
    | SymbolFilter(name: string)
    | BranchFilter(branch: string)
    | CommitFilter(commit: string)
    | Not(child: Node)
    | And(children: seq<Node>)
    | Or(children: seq<Node>)

  predicate IsLeaf(n: Node) {
    !n.Not? && !n.And? && !n.Or?
  }

  /** `position` is a 0-based column into the source. */
  datatype QueryParseError = QueryParseError(message: string, position: int)
}
