/** Python's `re` module, which the gateway calls but whose semantics is not
    part of this model. An engine is given by two total functions: what
    `re.compile` reports for a pattern (None when it compiles, otherwise the
    text of the `re.error`), and whether `re.search` finds the compiled
    pattern anywhere in a text. Every property proved here holds for every
    engine. */
module Regex {
  import opened Models

  datatype Engine = Engine(compileError: string -> Option<string>, search: (string, string) -> bool)

  /** `re.compile(pattern)` succeeds. */
  predicate Compiles(re: Engine, pattern: string) {
    re.compileError(pattern).None?
  }

  /** `re.search(pattern, text)` returns a match object; a pattern that does
      not compile never reports one, since `re.search` raises instead. */
  predicate Searches(re: Engine, pattern: string, text: string) {
    Compiles(re, pattern) && re.search(pattern, text)
  }
}
