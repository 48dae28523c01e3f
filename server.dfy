/** The later draft of the server (s/m.rs): a store of open documents and a
    cache of their definitions, both keyed by document, updated by
    `did_open` and `did_change` and read by `goto_definition` and `rename`. */
module Server {
  import opened Text
  import opened Lsp
  import Scanner
  import Extractor
  import Renaming
  import Diagnostics
  import opened Requests

  /** Every edit a rename of `token` to `newName` makes in `docText`: the
      whole-word occurrences of the token, line by line. */
  function RenameEdits(docText: string, token: string, newName: string): seq<TextEdit>
    requires |token| > 0
  {
    Renaming.DocumentEdits(Lines(docText), token, newName, |Lines(docText)|)
  }

  class LanguageServer {
    /** The stored text of each open document. */
    var documents: map<Uri, string>
    /** The cached definitions of each document. */
    var definitions: map<Uri, map<string, Range>>
    /** The raw text each document last arrived with. */
    ghost var received: map<Uri, string>

    /** Definitions are cached only for stored documents, and they are always
        the scan of the text the document last arrived with; the stored text
        is that text, or its lines run together. */
    ghost predicate Valid()
      reads this
    {
      definitions.Keys <= documents.Keys
      && documents.Keys == received.Keys
      && (forall u :: u in definitions ==> definitions[u] == Scanner.Scan(received[u]))
      && (forall u :: u in documents ==>
            documents[u] == received[u] || documents[u] == Concat(Lines(received[u])))
    }

    constructor ()
      ensures Valid()
      ensures documents == map[] && definitions == map[] && received == map[]
    {
      documents := map[];
      definitions := map[];
      received := map[];
    }

    /** `did_open` (s/m.rs:164-171): store the text as given, cache its
        definitions, publish the checker's verdict. */
    method DidOpen(uri: Uri, text: string, run: CheckerRun) returns (diagnostics: seq<Diagnostic>)
      requires Valid()
      modifies this
      ensures Valid()
      ensures documents == old(documents)[uri := text]
      ensures received == old(received)[uri := text]
      ensures definitions == old(definitions)[uri := Scanner.Scan(text)]
      ensures run.success ==> diagnostics == []
      ensures !run.success ==>
        diagnostics == [Diagnostics.TranslatedDiagnostic(run.stderr, Diagnostics.DocumentLines(text))]
    {
      documents := documents[uri := text];
      received := received[uri := text];
      var defs := Scanner.Parse(text);
      definitions := definitions[uri := defs];
      diagnostics := Diagnostics.GetDiagnostics(run, Diagnostics.DocumentLines(documents[uri]));
    }

    /** `did_change` (s/m.rs:173-183): store the new text's lines run
        together with no separator, publish the checker's verdict on that,
        then drop the cached definitions of every document and cache this
        document's scan of the new text as received. */
    method DidChange(uri: Uri, text: string, run: CheckerRun) returns (diagnostics: seq<Diagnostic>)
      requires Valid()
      modifies this
      ensures Valid()
      ensures documents == old(documents)[uri := Concat(Lines(text))]
      ensures received == old(received)[uri := text]
      ensures definitions == map[uri := Scanner.Scan(text)]
      ensures '\n' !in documents[uri]
      ensures run.success ==> diagnostics == []
      ensures !run.success ==>
        diagnostics == [Diagnostics.TranslatedDiagnostic(run.stderr, Diagnostics.DocumentLines(Concat(Lines(text))))]
      ensures forall other, position :: other != uri ==> GotoDefinition(other, position).Err?
    {
      LinesHaveNoNewline(text);
      ConcatHasNoNewline(Lines(text));
      documents := documents[uri := Concat(Lines(text))];
      received := received[uri := text];
      diagnostics := Diagnostics.GetDiagnostics(run, Diagnostics.DocumentLines(documents[uri]));
      definitions := map[];
      var defs := Scanner.Parse(text);
      definitions := definitions[uri := defs];
    }

    /** `goto_definition` (s/m.rs:185-212): ParseError for a document never
        opened, InternalError for one whose cached definitions were dropped,
        otherwise the cached span of the token under the cursor. */
    function GotoDefinition(uri: Uri, position: Position): (r: Response<Option<Range>>)
      reads this
      ensures r == Err(ParseError) <==> uri !in documents
      ensures r == Err(InternalError) <==> uri in documents && uri !in definitions
      ensures r.Panicked? <==>
        uri in documents && uri in definitions
        && position.character > |NthLine(documents[uri], position.line)|
      ensures r.Ok? ==> uri in definitions && r == Resolve(documents[uri], definitions[uri], position)
    {
      if uri !in documents then Err(ParseError)
      else if uri !in definitions then Err(InternalError)
      else Resolve(documents[uri], definitions[uri], position)
    }

    /** Under the invariant, a span the cache answers with is the span of a
        definition line of the text the document last arrived with, naming
        exactly the token under the cursor. After a change that text is not
        the stored one, so the span need not point at the stored text. */
    lemma CachedSpanFromReceived(uri: Uri, position: Position)
      requires Valid()
      requires GotoDefinition(uri, position).Ok? && GotoDefinition(uri, position).value.Some?
      ensures uri in received && position.character <= |NthLine(documents[uri], position.line)|
      ensures var token := CursorToken(documents[uri], position);
        var text := received[uri];
        |token| > 0
        && exists m :: 0 <= m < |text| && Scanner.DefinitionAt(text, m) && Scanner.NameAt(text, m) == token
             && GotoDefinition(uri, position).value.value == Scanner.SpanAt(text, m)
    {
      ResolveScanned(received[uri], documents[uri], position);
    }

    /** `rename` (s/m.rs:110-158): ParseError for a document never opened;
        otherwise the stored text is scanned afresh, and when the token under
        the cursor is one of its definitions, every whole-word occurrence of
        it is replaced, in a change set for this document alone that is empty
        when there is nothing to replace. */
    method Rename(uri: Uri, position: Position, newName: string) returns (r: Response<map<Uri, seq<TextEdit>>>)
      ensures r == Err(ParseError) <==> uri !in documents
      ensures r.Err? ==> r.code == ParseError
      ensures r.Panicked? <==>
        uri in documents && position.character > |NthLine(documents[uri], position.line)|
      ensures r.Ok? ==>
        var token := CursorToken(documents[uri], position);
        (token !in Scanner.Scan(documents[uri]) ==> r.value == map[])
        && (token != [] && token in Scanner.Scan(documents[uri]) ==>
              r.value == var edits := RenameEdits(documents[uri], token, newName);
                if edits == [] then map[] else map[uri := edits])
    {
      if uri !in documents {
        return Err(ParseError);
      }
      var docText := documents[uri];
      var defs := Scanner.Parse(docText);
      var lineText := NthLine(docText, position.line);
      if position.character > |lineText| {
        return Panicked;
      }
      var variableName := Extractor.ExtractVariableAtPosition(lineText, position.character);
      var changes := map[];
      if variableName in defs {
        Scanner.ScanSound(docText, variableName);
        var edits := Renaming.CollectEdits(Lines(docText), variableName, newName);
        if edits != [] {
          changes := changes[uri := edits];
        }
      }
      r := Ok(changes);
    }
  }

  /** A rename's edits lie on lines of the document, each replacing one
      whole-word occurrence of the token, ordered by position and not
      overlapping. */
  lemma RenameEditsSound(docText: string, token: string, newName: string)
    requires |token| > 0
    ensures Renaming.AllValid(Lines(docText), token, newName, RenameEdits(docText, token, newName))
    ensures Renaming.Ordered(RenameEdits(docText, token, newName))
  {
    Renaming.DocumentEditsSound(Lines(docText), token, newName, |Lines(docText)|);
  }

  /** Renaming `x` to `z` in `"x: 1\ny: x + 2\n"` replaces the definition at
      (0,0)-(0,1) and the use at (1,3)-(1,4). */
  lemma RenameTextExample(t: string)
    requires t == "x: 1\ny: x + 2\n"
    ensures RenameEdits(t, "x", "z") == [Renaming.EditAt(0, 0, 1, "z"), Renaming.EditAt(1, 3, 4, "z")]
  {
    TwoDefinitionsLines(t);
    Renaming.RenameExample(Lines(t));
  }
}
