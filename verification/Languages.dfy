/** The data carriers that parsing, extraction and storage exchange (indexer/languages.py). */
module Languages {
  import opened Wrappers

  /** A text file selected for indexing. `lang` is None for unknown extensions. */
  datatype ParsedFile = ParsedFile(path: string, lang: Option<string>, size: nat, content: string)

  datatype Symbol = Symbol(name: string, kind: string, startLine: int, endLine: int)

  /** `enclosing` is the innermost named definition around the site; None is module scope. */
  datatype Edge = Edge(kind: string, target: string, line: int, enclosing: Option<Symbol>)

  datatype FileExtraction = FileExtraction(symbols: seq<Symbol>, edges: seq<Edge>)

  const NO_EXTRACTION := FileExtraction([], [])

  /** The languages with a symbol map; any other file extracts to nothing. */
  const SYMBOL_LANGUAGES: set<string> :=
    {"python", "javascript", "typescript", "tsx", "go", "java", "rust"}

  /** Would extraction do any work on `pf`, or short-circuit to an empty result? */
  predicate NeedsParse(pf: ParsedFile) {
    pf.lang.Some? && pf.lang.value in SYMBOL_LANGUAGES
  }
}
