/** The Language Server Protocol values the core consumes and produces,
    already decoded. Line and character numbers are unbounded here. */
module Lsp {
  import opened Text

  /** A document identifier (a URL in the protocol); compared exactly. */
  type Uri = string

  /** Zero-based line and character offset. */
  datatype Position = Position(line: nat, character: nat)

  /** A half-open range of text. */
  datatype Range = Range(start: Position, end: Position)

  /** One replacement in a rename's edit list. */
  datatype TextEdit = TextEdit(range: Range, newText: string)

  datatype DiagnosticSeverity = Error | Warning | Information | Hint

  /** The fields of `Diagnostic::new` the server fills in; `code`,
      `related_information` and `tags` are always `None`. */
  datatype Diagnostic = Diagnostic(
    range: Range,
    severity: Option<DiagnosticSeverity>,
    source: Option<string>,
    message: string)

  /** JSON-RPC error codes the handlers return. */
  datatype ErrorCode = ParseError | InternalError

  /** Outcome of a request handler: a result, a JSON-RPC error, or a panic
      (a string slice taken past the end of a line). */
  datatype Response<T> = Ok(value: T) | Err(code: ErrorCode) | Panicked

  /** `HashMap::get`. */
  function Lookup<K, V>(m: map<K, V>, k: K): Option<V> {
    if k in m then Some(m[k]) else None
  }

  /** What the external checker `/usr/local/bin/k` returned: whether it
      exited successfully, and its standard error decoded as text. */
  datatype CheckerRun = CheckerRun(success: bool, stderr: string)
}
