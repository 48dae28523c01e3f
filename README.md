# klsp core, modelled in Dafny

klsp is a small language server for the K notation. It keeps the text of every open
document. It finds definitions — lines that start with a name followed by `:`. It
answers "go to definition" and "rename" requests on those names. It turns the K
checker's error output into a diagnostic.

The repository holds two drafts of the server:

- `src/main.rs` is the earlier draft. It keeps documents only and scans the stored text
  afresh on every definition request.
- `s/m.rs` is the later draft. It adds a per-document cache of definitions and a `rename`
  handler.

Both drafts share the definition scanner `parse` and the diagnostic translator
`parse_diagnostics_from_stderr`, character for character. They differ in how
`extract_variable_at_position` finds the identifier under the cursor.

The modules, one per file:

- `text.dfy` (`Text`): character classes and the Rust string operations the server
  uses:
  - `lines`, `split('\n')`, `trim`, `find`;
  - collecting lines into a `String`.
- `lsp.dfy` (`Lsp`): positions, ranges, edits, diagnostics, and the outcome of a
  request: a result, a JSON-RPC error, or a panic.
- `scanner.dfy` (`Scanner`): `parse`.
  - The regular expression `(?m)^(\w+):\s*.*` is written out as an explicit left-to-right
    scan, `Matches`, that reproduces the regex's leftmost, greedy, non-overlapping matches.
  - `Parse` is the imperative loop that fills the map. It is proved equal to `Scan`.
- `extractor.dfy` (`Extractor`): both variants of `extract_variable_at_position`, and the
  proof that they agree.
- `rename.dfy` (`Renaming`): the nested loops of `rename`, the outer one over lines
  (`CollectEdits`) and the inner search on one line (`CollectLineEdits`).
  - The inner loop follows `SearchFrom`, the search as written over slices of the line.
    `SearchFrom` is proved equal to `LineEdits`, the same search stated on the whole line.
  - Together the loops build the edit list `DocumentEdits`, which is proved sound,
    complete and ordered.
- `diagnostics.dfy` (`Diagnostics`): `parse_diagnostics_from_stderr`, `get_diagnostics`,
  and the trimmed document lines they are given.
- `requests.dfy` (`Requests`): the read-only body of a definition request. Both drafts
  share it.
- `server.dfy` (`Server`): the later draft's server, a class with `documents` and
  `definitions` maps. It has `did_open`, `did_change`, `goto_definition` and `rename`.
- `early_server.dfy` (`EarlyServer`): the earlier draft's server, a class with a
  `documents` map only.

Characters stand for one unit each, and the character classes are ASCII:

- an identifier character (regex `\w`, `is_variable_char`) is a letter, a digit or `_`;
- `is_alphanumeric` is a letter or a digit;
- whitespace is the space and codes 9 to 13.

A slice taken past the end of a line panics in the source. The model reports this as the
`Panicked` outcome of a request.

The external checker `/usr/local/bin/k` is not run. Its exit status and standard error
are an input (`CheckerRun`) to `did_open` and `did_change`.

## Model

| member | source | states |
|---|---|---|
| Scanner.Parse | s/m.rs:9-39 | the imperative scan fills the map with exactly `Scan(text)`: each match's name mapped to its span, later matches overwriting earlier ones |
| Scanner.DefinitionShape | s/m.rs:18-31 | a match captures a non-empty run of identifier characters; its span is `(L,0)-(L,n)`, n the name's length, with L the number of line feeds before it |
| Scanner.SkipWhitespaceGreedy | s/m.rs:11 | `\s*` consumes every whitespace character, line feeds included, and stops at the first other one |
| Scanner.SkipToNewlineGreedy | s/m.rs:11 | `.*` consumes up to, not including, the next line feed |
| Scanner.MatchEnd | s/m.rs:11 | a match ends after its name and colon, and within the text |
| Scanner.MatchesValid | s/m.rs:11-13 | every match lies in the text at a line start with a non-empty word run followed by `:` |
| Scanner.MatchesOrdered | s/m.rs:13 | matches come left to right and never overlap: each starts at or after the end of every earlier one |
| Scanner.LastNamed | s/m.rs:13-34 | finds the last match with a given name, and no later match has that name |
| Scanner.RecordLookup | s/m.rs:34 | after the insertions, a name maps to the span of its last match, or keeps its old value when it has none |
| Scanner.ScanSound | s/m.rs:11-34 | every key is the name captured at some definition line of the text. The name is non-empty and made of identifier characters. Its value is that definition line's span `(L,0)-(L,n)`, where L is the line and n the name's length |
| Scanner.MatchedNameIsKey | s/m.rs:13-34 | the name of every match is a key |
| Scanner.ScanLastWins | s/m.rs:34 | a match whose name no later match repeats gives that name's span |
| Scanner.EmptyNameNeverDefined | s/m.rs:11 | the empty name is never a key |
| Scanner.CoveringMatch | s/m.rs:11-13 | a definition line at or after the scan start is either matched or swallowed by an earlier match |
| Scanner.MatchesCover | s/m.rs:11-13 | every definition line is matched or lies inside an earlier match |
| Scanner.ScanRedefinition | s/m.rs:13-34 | `"a: 1\na: 2\n"` gives `{a ↦ (1,0)-(1,1)}`: the last definition wins |
| Scanner.ScanTwoDefinitions | s/m.rs:13-34 | `"x: 1\ny: x + 2\n"` gives `{x ↦ (0,0)-(0,1), y ↦ (1,0)-(1,1)}` |
| Scanner.ScanSwallowsNextLine | src/main.rs:11-13 | in `"a:\nb: 1"` the `\s*` after `a:` runs into the next line, so only `a` is defined |
| Extractor.LastNonIdent | s/m.rs:44-48 | finds the last non-identifier character before the cursor; everything after it is an identifier character |
| Extractor.FirstNonIdent | s/m.rs:50-53 | finds the first non-identifier character from the cursor; everything before it is an identifier character |
| Extractor.ExtractVariableAtPosition | s/m.rs:41-60 | the result is the maximal identifier run around the cursor; it is empty exactly when neither neighbour of the cursor is an identifier character |
| Extractor.MaximalRunUnique | s/m.rs:41-60 | there is only one maximal identifier run around a position |
| Extractor.RunBefore | src/main.rs:43-47 | counts the identifier characters ending at the cursor, and the one before them is not one |
| Extractor.ExtractByCounting | src/main.rs:41-55 | `line[pos - back .. pos + forward]` is the maximal identifier run around the cursor |
| Extractor.ExtractorsAgree | src/main.rs:41-55 | both drafts' extractors return the same token whenever the cursor is within the line |
| Renaming.FindFromFirst | s/m.rs:126 | `find` returns the first occurrence of the name at or after the start, or nothing when there is none |
| Renaming.FindInSuffix | s/m.rs:126-127 | searching the slice `line[from..]` and adding `from` back finds the same occurrence as searching from `from` |
| Renaming.LineEditsSound | s/m.rs:126-142 | every edit on a line covers an occurrence of the name with no alphanumeric neighbour, spans as many characters as the name, carries the new name, and the edits are ordered and do not overlap |
| Renaming.LineEditAt | s/m.rs:126-142 | a whole-word occurrence that no earlier occurrence overlaps is edited |
| Renaming.DocumentEditsSound | s/m.rs:124-143 | every edit of the document is valid on its line, and the edits are ordered by (line, column) without overlap |
| Renaming.DocumentEditsInclude | s/m.rs:124-143 | an edit of one line is among the document's edits |
| Renaming.DocumentEditsComplete | s/m.rs:124-143 | every whole-word occurrence not overlapped by an earlier one is edited |
| Renaming.CollectEdits | s/m.rs:123-143 | the outer loop over `lines().enumerate()` appends each line's edits in line order and builds exactly `DocumentEdits`, the document's sound and ordered edit list |
| Renaming.CollectLineEdits | s/m.rs:125-142 | the inner `while let` loop terminates because the name is non-empty, and appends to the edits so far exactly the line's edits `LineEdits` |
| Renaming.SearchFromEdits | s/m.rs:126-141 | the search as written, over the slice `line[start_char_index..]` with the offset added back, pushes exactly the edits of the search from that index on the whole line |
| Renaming.UnderscoreDoesNotBlock | s/m.rs:129-131 | in `x_1` the `x` is renamed, since `_` is not alphanumeric |
| Renaming.AlphanumericBlocks | s/m.rs:129-131 | in `x1` the `x` is not renamed |
| Renaming.RenameExample | s/m.rs:124-143 | renaming `x` to `z` in `x: 1`, `y: x + 2` edits (0,0)-(0,1) and (1,3)-(1,4) |
| Diagnostics.ParseDiagnosticsFromStderr | s/m.rs:235-269 | the loop yields exactly one diagnostic: its column comes from the last caret line and its line from the last other non-banner line; severity error, source `k-language-server`, message `Syntax error at: ` plus the raw output |
| Diagnostics.PositionOfTrimmedFirst | s/m.rs:248-251 | `position` finds the first document line whose trimmed text equals the trimmed stderr line, or none |
| Diagnostics.CaretIndexIsIndent | s/m.rs:244-245 | on a caret line the column is the width of the indentation before `^` |
| Diagnostics.CaretColumnFromLast | s/m.rs:243-245 | the column is that of the last caret line, whatever follows it |
| Diagnostics.NoCaretColumnZero | s/m.rs:240 | without a caret line the column stays 0 |
| Diagnostics.ErrorLineFromLast | s/m.rs:246-251 | the line number comes from the last line that is neither a caret line nor the `'parse` banner |
| Diagnostics.EchoedLineFirst | s/m.rs:248-251 | the line number is the first matching document line, or 0 when none matches |
| Diagnostics.NoEchoLineZero | s/m.rs:241 | without such a line the line number stays 0 |
| Diagnostics.EmptyStderr | src/main.rs:172-203 | empty output gives the span (0,0)-(0,1) and the message `Syntax error at: ` |
| Diagnostics.CaretExample | src/main.rs:178-187 | `"bad token\n    ^\n"` against the document line `bad token` points at (0,4)-(0,5) |
| Diagnostics.GetDiagnostics | s/m.rs:215-233 | a successful checker run gives no diagnostics; a failed one gives the translation of its standard error |
| Diagnostics.DocumentLines | src/main.rs:70-75 | the translator gets one line per piece of the text split on `'\n'`, each trimmed |
| Requests.Resolve | s/m.rs:194-205 | a request never errs here; it panics exactly when the cursor lies past its line's end; otherwise it returns the definition of the maximal identifier run at the cursor, if any |
| Requests.ResolveBlank | s/m.rs:195-198 | a cursor touching no identifier resolves to nothing |
| Requests.ResolveScanned | src/main.rs:129-138 | a span found in a scan lies on one line, from column 0 to the token's length, at a definition of that very token |
| Requests.ResolvePastSingleLine | src/main.rs:131-132 | in text without a line feed, line 1 and beyond are empty: column 0 finds nothing, any other column panics |
| Requests.TwoDefinitionsLines | s/m.rs:117 | `lines()` splits `"x: 1\ny: x + 2\n"` into two lines; the final line feed starts no third one |
| Requests.ResolveExample | src/main.rs:127-146 | the cursor at (1,3) of `"x: 1\ny: x + 2\n"` resolves to (0,0)-(0,1) |
| Server.LanguageServer.constructor | s/m.rs:273-277 | the server starts with no documents, no cached definitions and no received text, and the cache invariant holds |
| Server.LanguageServer.DidOpen | s/m.rs:164-171 | stores the text verbatim, records it as the document's received text, caches its scan and keeps the cache invariant; publishes the checker's verdict on the stored text's trimmed lines (`diagnostics`, s/m.rs:69-86) |
| Server.LanguageServer.DidChange | s/m.rs:173-183 | stores the lines run together, so no line feed remains; records the raw new text as the document's received text; drops every other document's cache, after which their definition requests fail; caches the scan of the raw new text |
| Server.LanguageServer.GotoDefinition | s/m.rs:185-212 | ParseError exactly for an unknown document, InternalError exactly for one without cached definitions, a panic exactly past the line end, otherwise the cached lookup |
| Server.LanguageServer.Rename | s/m.rs:110-158 | ParseError exactly for an unknown document and no other error; a panic exactly past the line end; a token that is not a key of a fresh scan gives an empty change set; otherwise the document's edit list, or an empty change set when there are no edits |
| Server.LanguageServer.CachedSpanFromReceived | s/m.rs:168-169 | under the cache invariant, a span the cache answers with belongs to a definition line, naming the token under the cursor, of the text the document last arrived with, which `DidOpen` and `DidChange` record (s/m.rs:181-182 after a change) |
| Server.RenameEditsSound | s/m.rs:124-147 | rename edits are valid whole-word replacements, ordered and non-overlapping |
| Server.RenameTextExample | s/m.rs:115-147 | renaming `x` to `z` in the text `"x: 1\ny: x + 2\n"`, split by `lines()`, edits (0,0)-(0,1) and (1,3)-(1,4) |
| EarlyServer.EarlyLanguageServer.constructor | src/main.rs:208-211 | the server starts with no documents |
| EarlyServer.EarlyLanguageServer.DidOpen | src/main.rs:108-113 | stores the text verbatim and publishes the checker's verdict on its trimmed lines |
| EarlyServer.EarlyLanguageServer.DidChange | src/main.rs:115-121 | stores the lines run together, leaving no line feed, and publishes the checker's verdict on that stored text |
| EarlyServer.EarlyLanguageServer.GotoDefinition | src/main.rs:123-147 | ParseError exactly for an unknown document, a panic exactly past the line end, otherwise a lookup in a fresh scan of the stored text |
| EarlyServer.GotoAfterChange | src/main.rs:115-131 | after a change, a request on line 1 or beyond finds nothing at column 0 and panics elsewhere |
| Text.WordRunIdent | src/main.rs:49-52 | every character counted by `take_while(is_variable_char)` is an identifier character |
| Text.IndexOfCharFirst | s/m.rs:245 | `find` stops at the first occurrence and only there |
| Text.LinesHaveNoNewline | s/m.rs:177 | no line produced by `lines` holds a line feed |
| Text.SplitJoinRoundTrip | s/m.rs:78 | splitting on `'\n'` and joining with `'\n'` gives the text back |
| Text.TrimStartSpec | s/m.rs:244 | `trim_start` removes exactly the leading whitespace |
| Text.TrimEndSpec | s/m.rs:244 | `trim_end` removes exactly the trailing whitespace |
| Text.TrimSpec | s/m.rs:244 | trimmed text neither starts nor ends with whitespace |

## Left out

- The protocol plumbing is not modelled, because it is transport and I/O:
  - `initialize`, `shutdown` and `main`;
  - `LspService`/`Server`, `async_trait`;
  - the client's `publish_diagnostics` (the diagnostics are returned instead).
- Spawning `/usr/local/bin/k` and decoding its output are not modelled. The checker's exit
  status and standard error are an input (`CheckerRun`).
  - Its argument, the document's file path from `to_file_path().unwrap()`, is not modelled.
- `DashMap` concurrency and the interleaving of the asynchronous handlers are not
  modelled. Each handler runs to completion on a single-owner object.
- Unicode is not modelled. The character classes are the ASCII ones, and every character
  counts as one unit. So the model cannot show the source's mix of byte and character
  offsets, or a slice panicking inside a multi-byte character.
- The `u32` and `u64` casts of line and column numbers are not modelled; numbers are
  unbounded.
- `did_change` reads `content_changes[0]`. The model takes that text as its argument and
  does not model the panic on an empty change list.
- A `Location`'s `uri` is not modelled. Definitions store only the range, and a definition
  request answers with the range. The uri is always the requested document's.
- `dbg!` output is not modelled.
- `Server.LanguageServer.Rename` states its result for the cases that can arise. The guard
  `token != []` in its third clause is needed only for the edit list to be defined.
  `Scanner.EmptyNameNeverDefined` shows that the empty token always takes the first clause.
- `Renaming.WholeWord`: the rename boundary test follows the code's `is_alphanumeric`. So a
  neighbouring `_` does not block a match, although `_` counts as part of an identifier
  everywhere else.
- `Renaming.DocumentEditsComplete` assumes that no earlier occurrence on the line overlaps
  the one it is about. The search really does skip such occurrences: for the name `a_a`,
  the second one in `a_a_a_a` is never edited. For a name of letters and digits only, the
  condition follows from the whole-word test. That consequence is not stated as a lemma.
