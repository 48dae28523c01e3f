/** The earlier draft of the server (src/main.rs): a store of open documents
    only. Every definition request scans the stored text afresh. */
module EarlyServer {
  import opened Text
  import opened Lsp
  import Scanner
  import Diagnostics
  import opened Requests

  class EarlyLanguageServer {
    /** The stored text of each open document. */
    var documents: map<Uri, string>

    constructor ()
      ensures documents == map[]
    {
      documents := map[];
    }

    /** `did_open` (src/main.rs:108-113): store the text as given and
        publish the checker's verdict. */
    method DidOpen(uri: Uri, text: string, run: CheckerRun) returns (diagnostics: seq<Diagnostic>)
      modifies this
      ensures documents == old(documents)[uri := text]
      ensures run.success ==> diagnostics == []
      ensures !run.success ==>
        diagnostics == [Diagnostics.TranslatedDiagnostic(run.stderr, Diagnostics.DocumentLines(text))]
    {
      documents := documents[uri := text];
      diagnostics := Diagnostics.GetDiagnostics(run, Diagnostics.DocumentLines(documents[uri]));
    }

    /** `did_change` (src/main.rs:115-121): store the new text's lines run
        together with no separator, so the stored text has no line feed
        left, and publish the checker's verdict on it. */
    method DidChange(uri: Uri, text: string, run: CheckerRun) returns (diagnostics: seq<Diagnostic>)
      modifies this
      ensures documents == old(documents)[uri := Concat(Lines(text))]
      ensures '\n' !in documents[uri]
      ensures run.success ==> diagnostics == []
      ensures !run.success ==>
        diagnostics == [Diagnostics.TranslatedDiagnostic(run.stderr, Diagnostics.DocumentLines(Concat(Lines(text))))]
    {
      LinesHaveNoNewline(text);
      ConcatHasNoNewline(Lines(text));
      documents := documents[uri := Concat(Lines(text))];
      diagnostics := Diagnostics.GetDiagnostics(run, Diagnostics.DocumentLines(documents[uri]));
    }

    /** `goto_definition` (src/main.rs:123-147): ParseError for a document
        never opened, otherwise the span, in a fresh scan of the stored
        text, of the token under the cursor. */
    function GotoDefinition(uri: Uri, position: Position): (r: Response<Option<Range>>)
      reads this
      ensures r.Err? <==> uri !in documents
      ensures r.Err? ==> r.code == ParseError
      ensures r.Panicked? <==> uri in documents && position.character > |NthLine(documents[uri], position.line)|
      ensures r.Ok? ==> r == Resolve(documents[uri], Scanner.Scan(documents[uri]), position)
    {
      if uri !in documents then Err(ParseError)
      else Resolve(documents[uri], Scanner.Scan(documents[uri]), position)
    }
  }

  /** After a change, the stored text is one line: a request on line 1 or
      beyond finds nothing at column 0 and panics anywhere else. */
  lemma {:induction false} GotoAfterChange(text: string, position: Position)
    requires position.line >= 1
    ensures var stored := Concat(Lines(text));
      Resolve(stored, Scanner.Scan(stored), position)
        == if position.character == 0 then Ok(None) else Panicked
  {
    var stored := Concat(Lines(text));
    LinesHaveNoNewline(text);
    ConcatHasNoNewline(Lines(text));
    Scanner.EmptyNameNeverDefined(stored);
    ResolvePastSingleLine(stored, Scanner.Scan(stored), position);
  }
}
