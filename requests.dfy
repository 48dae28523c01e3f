/** The read-only part of a definition request, shared by both drafts of
    the server: pick the cursor's line out of the stored text, extract the
    identifier under the cursor and look it up among the definitions. The
    drafts differ only in where the definitions come from (a cache filled
    when the document arrives, or a fresh scan of the stored text). */
module Requests {
  import opened Text
  import opened Lsp
  import Scanner
  import Extractor

  /** The identifier under the cursor on the cursor's line
      (`lines().nth(line).unwrap_or("")` then `extract_variable_at_position`). */
  function CursorToken(docText: string, position: Position): string
    requires position.character <= |NthLine(docText, position.line)|
  {
    Extractor.ExtractVariableAtPosition(NthLine(docText, position.line), position.character)
  }

  /** The answer to a definition request against `defs` (s/m.rs:194-205;
      src/main.rs:130-143): a panic when the cursor lies past the end of its
      line, otherwise the span of the token under the cursor if it is
      defined. */
  function Resolve(docText: string, defs: map<string, Range>, position: Position): (r: Response<Option<Range>>)
    ensures !r.Err?
    ensures r.Panicked? <==> position.character > |NthLine(docText, position.line)|
    ensures r.Ok? ==>
      var line := NthLine(docText, position.line);
      exists s: nat, e: nat :: Extractor.MaximalRun(line, position.character, s, e)
        && r.value == Lookup(defs, line[s..e])
  {
    if position.character > |NthLine(docText, position.line)| then Panicked
    else Ok(Lookup(defs, CursorToken(docText, position)))
  }

  /** A cursor touching no identifier resolves to nothing, since no
      definition has the empty name. */
  lemma ResolveBlank(docText: string, defs: map<string, Range>, position: Position)
    requires "" !in defs
    requires position.character <= |NthLine(docText, position.line)|
    requires var line := NthLine(docText, position.line);
      (position.character == 0 || !IsIdentChar(line[position.character - 1]))
      && (position.character == |line| || !IsIdentChar(line[position.character]))
    ensures Resolve(docText, defs, position) == Ok(None)
  {
    assert CursorToken(docText, position) == "";
  }

  /** A span found among a document's scanned definitions covers, on one
      line, exactly the identifier under the cursor, which heads that line
      and is followed there by `:`. */
  lemma {:induction false} ResolveScanned(text: string, docText: string, position: Position)
    requires Resolve(docText, Scanner.Scan(text), position).Ok?
    requires Resolve(docText, Scanner.Scan(text), position).value.Some?
    ensures var token := CursorToken(docText, position);
      var span := Resolve(docText, Scanner.Scan(text), position).value.value;
      |token| > 0
      && (exists m :: 0 <= m < |text| && Scanner.DefinitionAt(text, m) && Scanner.NameAt(text, m) == token
            && span == Scanner.SpanAt(text, m))
      && span.start.line == span.end.line && span.start.character == 0
      && span.end.character == |token|
  {
    var token := CursorToken(docText, position);
    assert token in Scanner.Scan(text);
    Scanner.ScanSound(text, token);
  }

  /** Text without a line feed has nothing on line 1 and beyond: a request
      there sees an empty line, so it resolves to nothing at column 0 and
      panics anywhere else. */
  lemma ResolvePastSingleLine(docText: string, defs: map<string, Range>, position: Position)
    requires '\n' !in docText && "" !in defs && position.line >= 1
    ensures Resolve(docText, defs, position) == if position.character == 0 then Ok(None) else Panicked
  {
    AtMostOneLine(docText);
    assert NthLine(docText, position.line) == "";
    if position.character == 0 {
      ResolveBlank(docText, defs, position);
    }
  }

  /** `"x: 1\ny: x + 2\n"` has two lines; the final line feed ends the
      second one rather than starting a third. */
  lemma TwoDefinitionsLines(t: string)
    requires t == "x: 1\ny: x + 2\n"
    ensures Lines(t) == ["x: 1", "y: x + 2"]
  {
    IndexOfCharAt(t, '\n', 4);
    var rest := t[5..];
    assert rest == "y: x + 2\n";
    IndexOfCharAt(rest, '\n', 8);
    assert t[..4] == "x: 1" && rest[..8] == "y: x + 2";
    assert StripCarriageReturn(t[..4]) == "x: 1";
    assert StripCarriageReturn(rest[..8]) == "y: x + 2";
    assert rest[9..] == [];
    assert Lines(t) == [StripCarriageReturn(t[..4])] + Lines(rest);
    assert Lines(rest) == ["y: x + 2"] + Lines(rest[9..]);
  }

  lemma TokenOfUse(line: string)
    requires line == "y: x + 2"
    ensures Extractor.ExtractVariableAtPosition(line, 3) == "x"
  {
    var token := Extractor.ExtractVariableAtPosition(line, 3);
    assert Extractor.MaximalRun(line, 3, 3, 4);
    var s: nat, e: nat :| Extractor.MaximalRun(line, 3, s, e) && token == line[s..e];
    Extractor.MaximalRunUnique(line, 3, s, e, 3, 4);
  }

  /** The cursor at (1,3) of `"x: 1\ny: x + 2\n"` sits on the use of `x`,
      which resolves to the definition (0,0)-(0,1). */
  lemma ResolveExample(t: string)
    requires t == "x: 1\ny: x + 2\n"
    ensures Resolve(t, Scanner.Scan(t), Position(1, 3)) == Ok(Some(Range(Position(0, 0), Position(0, 1))))
  {
    TwoDefinitionsLines(t);
    TokenOfUse(NthLine(t, 1));
    Scanner.ScanTwoDefinitions(t);
  }
}
