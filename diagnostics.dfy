/** `parse_diagnostics_from_stderr` and `get_diagnostics`: the external
    checker's standard error becomes exactly one diagnostic. The column is
    taken from the last line that points at the error with `^`, the line
    from the last other line that is not the `'parse` banner, looked up
    among the document's trimmed lines. */
module Diagnostics {
  import opened Text
  import opened Lsp

  const Source: string := "k-language-server"
  const MessagePrefix: string := "Syntax error at: "

  /** A stderr line whose trimmed text starts with `^`. */
  predicate IsCaretLine(line: string) {
    StartsWith(Trim(line), "^")
  }

  /** The checker's banner line, whose trimmed text starts with `'parse`. */
  predicate IsMarkerLine(line: string) {
    StartsWith(Trim(line), "'parse")
  }

  /** `line.find('^').unwrap_or(0)`. */
  function CaretIndex(line: string): nat {
    var i := IndexOfChar(line, '^');
    if i < |line| then i else 0
  }

  /** `doc_lines.iter().position(|r| r.trim() == line.trim())`. */
  function PositionOfTrimmed(docLines: seq<string>, line: string): Option<nat> {
    if docLines == [] then None
    else if Trim(docLines[0]) == Trim(line) then Some(0)
    else match PositionOfTrimmed(docLines[1..], line)
      case None => None
      case Some(k) => Some(k + 1)
  }

  /** `position` finds the first document line with the same trimmed text. */
  lemma {:induction false} PositionOfTrimmedFirst(docLines: seq<string>, line: string)
    ensures match PositionOfTrimmed(docLines, line)
      case None => forall i :: 0 <= i < |docLines| ==> Trim(docLines[i]) != Trim(line)
      case Some(k) => (k < |docLines| && Trim(docLines[k]) == Trim(line)
        && forall i :: 0 <= i < k ==> Trim(docLines[i]) != Trim(line))
  {
    if docLines != [] && Trim(docLines[0]) != Trim(line) {
      PositionOfTrimmedFirst(docLines[1..], line);
      forall i | 1 <= i < |docLines| ensures docLines[1..][i - 1] == docLines[i] {
      }
    }
  }

  /** The document line a stderr line echoes, or 0 when none matches. */
  function EchoedLine(docLines: seq<string>, line: string): nat {
    match PositionOfTrimmed(docLines, line)
    case None => 0
    case Some(k) => k
  }

  /** The column the loop ends with: that of the last caret line, or 0. */
  function CaretColumn(lines: seq<string>): nat {
    if lines == [] then 0
    else if IsCaretLine(lines[|lines| - 1]) then CaretIndex(lines[|lines| - 1])
    else CaretColumn(lines[..|lines| - 1])
  }

  /** The line number the loop ends with: the echo of the last line that is
      neither a caret line nor the banner, or 0. */
  function ErrorLine(lines: seq<string>, docLines: seq<string>): nat {
    if lines == [] then 0
    else
      var last := lines[|lines| - 1];
      if !IsCaretLine(last) && !IsMarkerLine(last) then EchoedLine(docLines, last)
      else ErrorLine(lines[..|lines| - 1], docLines)
  }

  /** The one diagnostic reported for the checker output `stderr`. */
  function TranslatedDiagnostic(stderr: string, docLines: seq<string>): Diagnostic {
    var lines := Lines(stderr);
    var line := ErrorLine(lines, docLines);
    var character := CaretColumn(lines);
    Diagnostic(
      Range(Position(line, character), Position(line, character + 1)),
      Some(Error), Some(Source), MessagePrefix + stderr)
  }

  /** `parse_diagnostics_from_stderr` (s/m.rs:235-269; src/main.rs:170-204 is
      the same function). */
  method ParseDiagnosticsFromStderr(stderrOutput: string, docLines: seq<string>) returns (diagnostics: seq<Diagnostic>)
    ensures diagnostics == [TranslatedDiagnostic(stderrOutput, docLines)]
  {
    var stderrLines := Lines(stderrOutput);
    var errorMessage := MessagePrefix + stderrOutput;
    var character := 0;
    var lineNumber := 0;
    for k := 0 to |stderrLines|
      invariant character == CaretColumn(stderrLines[..k])
      invariant lineNumber == ErrorLine(stderrLines[..k], docLines)
    {
      var line := stderrLines[k];
      assert stderrLines[..k + 1][..k] == stderrLines[..k];
      if StartsWith(Trim(line), "^") {
        character := CaretIndex(line);
      } else if !StartsWith(Trim(line), "'parse") {
        lineNumber := EchoedLine(docLines, line);
      }
    }
    assert stderrLines[..|stderrLines|] == stderrLines;
    var diagnostic := Diagnostic(
      Range(Position(lineNumber, character), Position(lineNumber, character + 1)),
      Some(Error), Some(Source), errorMessage);
    diagnostics := [diagnostic];
  }

  /** On a caret line, `^` is the first character after the indentation, so
      the column is the width of that indentation. */
  lemma CaretIndexIsIndent(line: string)
    requires IsCaretLine(line)
    ensures CaretIndex(line) == |line| - |TrimStart(line)|
  {
    var t := TrimStart(line);
    var n := |line| - |t|;
    TrimSpec(line);
    TrimStartSpec(line);
    assert t[0] == '^';
    assert line[n] == t[0];
    forall j | 0 <= j < n ensures line[j] != '^' {
      assert IsWhitespace(line[j]);
    }
    IndexOfCharAt(line, '^', n);
  }

  /** The column comes from the last caret line, whatever follows it. */
  lemma {:induction false} CaretColumnFromLast(lines: seq<string>, k: nat)
    requires k < |lines| && IsCaretLine(lines[k])
    requires forall j :: k < j < |lines| ==> !IsCaretLine(lines[j])
    ensures CaretColumn(lines) == |lines[k]| - |TrimStart(lines[k])|
  {
    if k == |lines| - 1 {
      CaretIndexIsIndent(lines[k]);
    } else {
      var prefix := lines[..|lines| - 1];
      assert prefix[k] == lines[k];
      CaretColumnFromLast(prefix, k);
    }
  }

  /** Without a caret line the column is 0. */
  lemma {:induction false} NoCaretColumnZero(lines: seq<string>)
    requires forall j :: 0 <= j < |lines| ==> !IsCaretLine(lines[j])
    ensures CaretColumn(lines) == 0
  {
    if lines != [] {
      NoCaretColumnZero(lines[..|lines| - 1]);
    }
  }

  /** The line number comes from the last line that is neither a caret line
      nor the banner. */
  lemma {:induction false} ErrorLineFromLast(lines: seq<string>, docLines: seq<string>, k: nat)
    requires k < |lines| && !IsCaretLine(lines[k]) && !IsMarkerLine(lines[k])
    requires forall j :: k < j < |lines| ==> IsCaretLine(lines[j]) || IsMarkerLine(lines[j])
    ensures ErrorLine(lines, docLines) == EchoedLine(docLines, lines[k])
  {
    if k < |lines| - 1 {
      var prefix := lines[..|lines| - 1];
      assert prefix[k] == lines[k];
      ErrorLineFromLast(prefix, docLines, k);
    }
  }

  /** The echoed line is the first document line with the same trimmed
      text, or 0 when no document line has it. */
  lemma EchoedLineFirst(docLines: seq<string>, line: string)
    ensures var n := EchoedLine(docLines, line);
      (n < |docLines| && Trim(docLines[n]) == Trim(line)
        && forall i :: 0 <= i < n ==> Trim(docLines[i]) != Trim(line))
      || (n == 0 && forall i :: 0 <= i < |docLines| ==> Trim(docLines[i]) != Trim(line))
  {
    PositionOfTrimmedFirst(docLines, line);
  }

  /** Without any line other than caret lines and the banner, the line
      number is 0. */
  lemma {:induction false} NoEchoLineZero(lines: seq<string>, docLines: seq<string>)
    requires forall j :: 0 <= j < |lines| ==> IsCaretLine(lines[j]) || IsMarkerLine(lines[j])
    ensures ErrorLine(lines, docLines) == 0
  {
    if lines != [] {
      NoEchoLineZero(lines[..|lines| - 1], docLines);
    }
  }

  /** Empty checker output still gives one diagnostic, at (0,0)-(0,1). */
  lemma EmptyStderr(stderr: string, docLines: seq<string>)
    requires stderr == ""
    ensures TranslatedDiagnostic(stderr, docLines).range == Range(Position(0, 0), Position(0, 1))
    ensures TranslatedDiagnostic(stderr, docLines).message == MessagePrefix
  {
    assert Lines(stderr) == [];
    assert TranslatedDiagnostic(stderr, docLines).message == MessagePrefix + stderr;
    assert MessagePrefix + stderr == MessagePrefix;
  }

  lemma CaretExampleLines(stderr: string)
    requires stderr == "bad token\n    ^\n"
    ensures Lines(stderr) == ["bad token", "    ^"]
  {
    IndexOfCharAt(stderr, '\n', 9);
    var rest := stderr[10..];
    assert rest == "    ^\n";
    IndexOfCharAt(rest, '\n', 5);
    assert rest[6..] == [];
    assert stderr[..9] == "bad token" && rest[..5] == "    ^";
    assert StripCarriageReturn(stderr[..9]) == "bad token";
    assert StripCarriageReturn(rest[..5]) == "    ^";
    assert Lines(rest) == ["    ^"] + Lines(rest[6..]);
    assert Lines(stderr) == ["bad token"] + Lines(rest);
  }

  lemma CaretExampleTrim()
    ensures Trim("bad token") == "bad token"
    ensures Trim("    ^") == "^"
  {
    assert TrimStart("    ^") == TrimStart("^");
    assert TrimEnd("^") == "^";
  }

  /** `"bad token\n    ^\n"` against a document whose first line is
      `bad token` points at line 0, column 4. */
  lemma CaretExample(stderr: string, docLines: seq<string>)
    requires stderr == "bad token\n    ^\n" && docLines == ["bad token"]
    ensures TranslatedDiagnostic(stderr, docLines).range == Range(Position(0, 4), Position(0, 5))
  {
    var lines := ["bad token", "    ^"];
    CaretExampleLines(stderr);
    CaretExampleTrim();
    assert IsCaretLine(lines[1]);
    assert !IsCaretLine(lines[0]) && !IsMarkerLine(lines[0]);
    CaretColumnFromLast(lines, 1);
    ErrorLineFromLast(lines, docLines, 0);
    assert EchoedLine(docLines, lines[0]) == 0;
    assert |TrimStart("    ^")| == 1;
  }

  /** `get_diagnostics` (s/m.rs:215-233; src/main.rs:150-168) once the
      checker has run: nothing when it succeeded, else the translation of
      its standard error. */
  method GetDiagnostics(run: CheckerRun, docLines: seq<string>) returns (diagnostics: seq<Diagnostic>)
    ensures run.success ==> diagnostics == []
    ensures !run.success ==> diagnostics == [TranslatedDiagnostic(run.stderr, docLines)]
  {
    if !run.success {
      diagnostics := ParseDiagnosticsFromStderr(run.stderr, docLines);
    } else {
      diagnostics := [];
    }
  }

  /** The lines handed to the checker's translator: the document split on
      `'\n'`, each piece trimmed. */
  function DocumentLines(text: string): (docLines: seq<string>)
    ensures |docLines| == CountNewlines(text) + 1
    ensures forall i :: 0 <= i < |docLines| ==> docLines[i] == Trim(SplitNewlines(text)[i])
  {
    var parts := SplitNewlines(text);
    seq(|parts|, i requires 0 <= i < |parts| => Trim(parts[i]))
  }
}
