/** The definition scanner `parse`: every match of the multi-line regex
    `^(\w+):\s*.*` records its captured name with the span of that name.
    The regex is replaced by the explicit scan it performs: a match begins at
    a line start with a non-empty word run followed by `:`, then consumes
    all whitespace (line feeds included) and the rest of the line it lands on;
    the next match is searched from where this one ended. */
module Scanner {
  import opened Text
  import opened Lsp

  /** `^` in multi-line mode: the start of the text or just after a `'\n'`. */
  predicate IsLineStart(t: string, p: nat) {
    p == 0 || (0 < p <= |t| && t[p - 1] == '\n')
  }

  /** The regex matches at `p`: line start, a non-empty word run, then `:`. */
  predicate DefinitionAt(t: string, p: nat)
    requires p <= |t|
  {
    var n := WordRun(t, p);
    IsLineStart(t, p) && n > 0 && p + n < |t| && t[p + n] == ':'
  }

  /** The name captured by a match at `p`. */
  function NameAt(t: string, p: nat): string
    requires p <= |t|
  {
    t[p..p + WordRun(t, p)]
  }

  /** The range recorded for a match at `p`: the name on line L, from column
      0, where L counts the line feeds before `p`. */
  function SpanAt(t: string, p: nat): Range
    requires p <= |t|
  {
    var line := CountNewlines(t[..p]);
    Range(Position(line, 0), Position(line, WordRun(t, p)))
  }

  /** A match at `m` captures a non-empty run of identifier characters, and
      its span covers exactly that run on the match's line. */
  lemma DefinitionShape(t: string, m: nat)
    requires m <= |t| && DefinitionAt(t, m)
    ensures |NameAt(t, m)| > 0
    ensures forall i :: 0 <= i < |NameAt(t, m)| ==> IsIdentChar(NameAt(t, m)[i])
    ensures var line := CountNewlines(t[..m]);
      SpanAt(t, m) == Range(Position(line, 0), Position(line, |NameAt(t, m)|))
  {
    var name := NameAt(t, m);
    WordRunIdent(t, m);
    forall i | 0 <= i < |name| ensures IsIdentChar(name[i]) {
      assert name[i] == t[m + i];
    }
  }

  /** End of the longest run of whitespace from `p` (the regex's `\s*`). */
  function SkipWhitespace(t: string, p: nat): (q: nat)
    requires p <= |t|
    ensures p <= q <= |t|
    decreases |t| - p
  {
    if p == |t| || !IsWhitespace(t[p]) then p else SkipWhitespace(t, p + 1)
  }

  /** `\s*` is greedy: it stops at the first non-whitespace character. */
  lemma {:induction false} SkipWhitespaceGreedy(t: string, p: nat)
    requires p <= |t|
    ensures forall i :: p <= i < SkipWhitespace(t, p) ==> IsWhitespace(t[i])
    ensures SkipWhitespace(t, p) == |t| || !IsWhitespace(t[SkipWhitespace(t, p)])
    decreases |t| - p
  {
    if p < |t| && IsWhitespace(t[p]) {
      SkipWhitespaceGreedy(t, p + 1);
    }
  }

  /** End of the longest run of characters other than `'\n'` (the regex's `.*`). */
  function SkipToNewline(t: string, p: nat): (q: nat)
    requires p <= |t|
    ensures p <= q <= |t|
    decreases |t| - p
  {
    if p == |t| || t[p] == '\n' then p else SkipToNewline(t, p + 1)
  }

  /** `.*` is greedy and stays on its line: it stops at the first `'\n'`. */
  lemma {:induction false} SkipToNewlineGreedy(t: string, p: nat)
    requires p <= |t|
    ensures forall i :: p <= i < SkipToNewline(t, p) ==> t[i] != '\n'
    ensures SkipToNewline(t, p) == |t| || t[SkipToNewline(t, p)] == '\n'
    decreases |t| - p
  {
    if p < |t| && t[p] != '\n' {
      SkipToNewlineGreedy(t, p + 1);
    }
  }

  /** Where a match that starts at `p` ends. */
  function MatchEnd(t: string, p: nat): (e: nat)
    requires p <= |t| && DefinitionAt(t, p)
    ensures p + WordRun(t, p) < e <= |t|
  {
    SkipToNewline(t, SkipWhitespace(t, p + WordRun(t, p) + 1))
  }

  /** Start positions of the successive matches found from `p` on. */
  function Matches(t: string, p: nat): seq<nat>
    requires p <= |t|
    decreases |t| - p
  {
    if p == |t| then []
    else if DefinitionAt(t, p) then [p] + Matches(t, MatchEnd(t, p))
    else Matches(t, p + 1)
  }

  lemma MatchesAt(t: string, p: nat)
    requires p < |t| && DefinitionAt(t, p)
    ensures Matches(t, p) == [p] + Matches(t, MatchEnd(t, p))
    ensures |Matches(t, p)| > 0 && Matches(t, p)[0] == p
    ensures Matches(t, p)[1..] == Matches(t, MatchEnd(t, p))
  {
  }

  lemma MatchesSkip(t: string, p: nat)
    requires p < |t| && !DefinitionAt(t, p)
    ensures Matches(t, p) == Matches(t, p + 1)
  {
  }

  /** All positions of a list lie within the text. */
  predicate Within(t: string, ms: seq<nat>) {
    forall i :: 0 <= i < |ms| ==> ms[i] <= |t|
  }

  /** Every match lies in the text, at or after `p`, where the regex matches. */
  lemma {:induction false} MatchesValid(t: string, p: nat)
    requires p <= |t|
    ensures forall i :: 0 <= i < |Matches(t, p)| ==> p <= Matches(t, p)[i] < |t| && DefinitionAt(t, Matches(t, p)[i])
    ensures Within(t, Matches(t, p))
    decreases |t| - p
  {
    if p < |t| {
      if DefinitionAt(t, p) {
        MatchesAt(t, p);
        MatchesValid(t, MatchEnd(t, p));
      } else {
        MatchesSkip(t, p);
        MatchesValid(t, p + 1);
      }
    }
  }

  /** Past a match at `p`, the matches from `p` are those from its end,
      shifted by one. */
  lemma MatchesAtIndex(t: string, p: nat, k: nat)
    requires p < |t| && DefinitionAt(t, p) && 0 < k < |Matches(t, p)|
    ensures k - 1 < |Matches(t, MatchEnd(t, p))| && Matches(t, p)[k] == Matches(t, MatchEnd(t, p))[k - 1]
  {
    MatchesAt(t, p);
  }

  /** Past a position where no match starts, the matches are those from the
      next position. */
  lemma MatchesSkipIndex(t: string, p: nat, k: nat)
    requires p < |t| && !DefinitionAt(t, p) && k < |Matches(t, p)|
    ensures k < |Matches(t, p + 1)| && Matches(t, p)[k] == Matches(t, p + 1)[k]
  {
    MatchesSkip(t, p);
  }

  /** Matches are found left to right and never overlap: each one starts at
      or after the end of every earlier one. */
  lemma {:induction false} MatchesOrdered(t: string, p: nat, i: nat, j: nat)
    requires p <= |t| && i < j < |Matches(t, p)|
    ensures Matches(t, p)[i] < |t| && DefinitionAt(t, Matches(t, p)[i])
    ensures MatchEnd(t, Matches(t, p)[i]) <= Matches(t, p)[j]
    decreases |t| - p, 1
  {
    assert p < |t|;
    if !DefinitionAt(t, p) {
      OrderedPastSkip(t, p, i, j);
    } else if i > 0 {
      OrderedPastMatch(t, p, i, j);
    } else {
      MatchesAt(t, p);
      FirstMatchPrecedes(t, p, j);
    }
  }

  /** `MatchesOrdered` where no match starts at `p`. */
  lemma {:induction false} OrderedPastSkip(t: string, p: nat, i: nat, j: nat)
    requires p < |t| && !DefinitionAt(t, p) && i < j < |Matches(t, p)|
    ensures Matches(t, p)[i] < |t| && DefinitionAt(t, Matches(t, p)[i])
    ensures MatchEnd(t, Matches(t, p)[i]) <= Matches(t, p)[j]
    decreases |t| - p, 0
  {
    MatchesSkipIndex(t, p, i);
    MatchesSkipIndex(t, p, j);
    MatchesOrdered(t, p + 1, i, j);
  }

  /** `MatchesOrdered` for two matches after the one at `p`. */
  lemma {:induction false} OrderedPastMatch(t: string, p: nat, i: nat, j: nat)
    requires p < |t| && DefinitionAt(t, p) && 0 < i < j < |Matches(t, p)|
    ensures Matches(t, p)[i] < |t| && DefinitionAt(t, Matches(t, p)[i])
    ensures MatchEnd(t, Matches(t, p)[i]) <= Matches(t, p)[j]
    decreases |t| - p, 0
  {
    MatchesAtIndex(t, p, i);
    MatchesAtIndex(t, p, j);
    MatchesOrdered(t, MatchEnd(t, p), i - 1, j - 1);
  }

  /** Every later match starts at or after the end of a match at `p`. */
  lemma FirstMatchPrecedes(t: string, p: nat, j: nat)
    requires p < |t| && DefinitionAt(t, p) && 0 < j < |Matches(t, p)|
    ensures MatchEnd(t, p) <= Matches(t, p)[j]
  {
    MatchesAtIndex(t, p, j);
    MatchesValid(t, MatchEnd(t, p));
  }

  /** Inserts each match's name and span in order, so a later match of the
      same name overwrites an earlier one. */
  function Record(t: string, ms: seq<nat>, defs: map<string, Range>): map<string, Range>
    requires Within(t, ms)
  {
    if ms == [] then defs
    else Record(t, ms[1..], defs[NameAt(t, ms[0]) := SpanAt(t, ms[0])])
  }

  /** What `parse` returns for the text `t`. */
  function Scan(t: string): map<string, Range> {
    MatchesValid(t, 0);
    Record(t, Matches(t, 0), map[])
  }

  /** `parse` (s/m.rs:9-39; src/main.rs:9-39 is the same function). */
  method Parse(text: string) returns (definitions: map<string, Range>)
    ensures definitions == Scan(text)
  {
    definitions := map[];
    var pos := 0;
    MatchesValid(text, pos);
    while pos < |text|
      invariant pos <= |text|
      invariant Within(text, Matches(text, pos))
      invariant Record(text, Matches(text, pos), definitions) == Scan(text)
    {
      if DefinitionAt(text, pos) {
        MatchesAt(text, pos);
        definitions := definitions[NameAt(text, pos) := SpanAt(text, pos)];
        pos := MatchEnd(text, pos);
      } else {
        MatchesSkip(text, pos);
        pos := pos + 1;
      }
      MatchesValid(text, pos);
    }
  }

  /** Index of the last entry of `ms` whose name is `name`, or -1. */
  function LastNamed(t: string, ms: seq<nat>, name: string): (k: int)
    requires Within(t, ms)
    ensures -1 <= k < |ms|
    ensures k >= 0 ==> NameAt(t, ms[k]) == name
    ensures forall j :: k < j < |ms| ==> NameAt(t, ms[j]) != name
  {
    if ms == [] then -1
    else
      var k := LastNamed(t, ms[1..], name);
      if k >= 0 then k + 1
      else if NameAt(t, ms[0]) == name then 0
      else -1
  }

  /** Recording is last-write-wins: a name maps to the span of the last match
      with that name, and keeps its earlier value if no match has it. */
  lemma {:induction false} RecordLookup(t: string, ms: seq<nat>, defs: map<string, Range>, name: string)
    requires Within(t, ms)
    ensures var k := LastNamed(t, ms, name);
      var r := Record(t, ms, defs);
      (name in r <==> (k >= 0 || name in defs))
      && (k >= 0 ==> r[name] == SpanAt(t, ms[k]))
      && (k < 0 && name in defs ==> r[name] == defs[name])
  {
    if ms != [] {
      var defs' := defs[NameAt(t, ms[0]) := SpanAt(t, ms[0])];
      RecordLookup(t, ms[1..], defs', name);
    }
  }

  /** Every key of the scan is the name of a definition line: a non-empty
      run of identifier characters at a line start, followed by `:`; its
      range is (L,0)-(L,|name|) with L the number of line feeds before it. */
  lemma {:induction false} ScanSound(t: string, name: string)
    requires name in Scan(t)
    ensures exists m :: 0 <= m < |t| && DefinitionAt(t, m) && NameAt(t, m) == name && Scan(t)[name] == SpanAt(t, m)
    ensures |name| > 0 && forall i :: 0 <= i < |name| ==> IsIdentChar(name[i])
    ensures exists line: nat :: Scan(t)[name] == Range(Position(line, 0), Position(line, |name|))
  {
    var ms := Matches(t, 0);
    MatchesValid(t, 0);
    RecordLookup(t, ms, map[], name);
    var m := ms[LastNamed(t, ms, name)];
    DefinitionShape(t, m);
    var line := CountNewlines(t[..m]);
    assert Scan(t)[name] == Range(Position(line, 0), Position(line, |name|));
  }

  /** The name of every match is a key of the scan. */
  lemma {:induction false} MatchedNameIsKey(t: string, i: nat)
    requires i < |Matches(t, 0)|
    ensures Matches(t, 0)[i] <= |t| && NameAt(t, Matches(t, 0)[i]) in Scan(t)
  {
    var ms := Matches(t, 0);
    MatchesValid(t, 0);
    var name := NameAt(t, ms[i]);
    RecordLookup(t, ms, map[], name);
    assert LastNamed(t, ms, name) >= i;
  }

  /** Last write wins: the range of a name is that of its last match. */
  lemma {:induction false} ScanLastWins(t: string, i: nat)
    requires Within(t, Matches(t, 0)) && i < |Matches(t, 0)|
    requires forall j :: i < j < |Matches(t, 0)| ==> NameAt(t, Matches(t, 0)[j]) != NameAt(t, Matches(t, 0)[i])
    ensures NameAt(t, Matches(t, 0)[i]) in Scan(t)
    ensures Scan(t)[NameAt(t, Matches(t, 0)[i])] == SpanAt(t, Matches(t, 0)[i])
  {
    var ms := Matches(t, 0);
    var name := NameAt(t, ms[i]);
    RecordLookup(t, ms, map[], name);
    assert LastNamed(t, ms, name) == i;
  }

  /** The empty token is never a key, so it never resolves. */
  lemma {:induction false} EmptyNameNeverDefined(t: string)
    ensures "" !in Scan(t)
  {
    if "" in Scan(t) {
      ScanSound(t, "");
    }
  }

  /** A match at `m` consumes position `q` without starting there. */
  predicate Swallows(t: string, m: nat, q: nat) {
    m <= |t| && DefinitionAt(t, m) && m < q < MatchEnd(t, m)
  }

  /** The index of the match that starts at, or swallows, position `q`. */
  lemma {:induction false} CoveringMatch(t: string, p: nat, q: nat) returns (i: nat)
    requires p <= q < |t| && DefinitionAt(t, q)
    ensures i < |Matches(t, p)| && (Matches(t, p)[i] == q || Swallows(t, Matches(t, p)[i], q))
    decreases |t| - p
  {
    if DefinitionAt(t, p) {
      var e := MatchEnd(t, p);
      MatchesAt(t, p);
      if q < e {
        i := 0;
        assert Matches(t, p)[i] == p;
      } else {
        var j := CoveringMatch(t, e, q);
        assert Matches(t, p)[j + 1] == Matches(t, e)[j];
        i := j + 1;
      }
    } else {
      MatchesSkip(t, p);
      i := CoveringMatch(t, p + 1, q);
    }
  }

  /** The scan misses a definition line only when an earlier match swallowed
      it: that match's `\s*` crossed the line feeds in front of it. */
  lemma {:induction false} MatchesCover(t: string, q: nat)
    requires q < |t| && DefinitionAt(t, q)
    ensures exists i :: 0 <= i < |Matches(t, 0)| && (Matches(t, 0)[i] == q || Swallows(t, Matches(t, 0)[i], q))
  {
    var i := CoveringMatch(t, 0, q);
  }

  /** Recording two matches inserts both names in order. */
  lemma RecordTwo(t: string, m0: nat, m1: nat)
    requires m0 <= |t| && m1 <= |t|
    ensures Record(t, [m0, m1], map[]) == map[NameAt(t, m0) := SpanAt(t, m0)][NameAt(t, m1) := SpanAt(t, m1)]
  {
    var d0 := map[NameAt(t, m0) := SpanAt(t, m0)];
    var d1 := d0[NameAt(t, m1) := SpanAt(t, m1)];
    assert [m0, m1][1..] == [m1];
    assert Record(t, [m0, m1], map[]) == Record(t, [m1], d0);
    assert [m1][1..] == [];
    assert Record(t, [m1], d0) == Record(t, [], d1);
  }

  lemma RedefinitionMatches(t: string)
    requires t == "a: 1\na: 2\n"
    ensures Matches(t, 0) == [0, 5]
  {
    assert WordRun(t, 0) == 1 && DefinitionAt(t, 0);
    assert SkipWhitespace(t, 2) == 3 && SkipToNewline(t, 3) == 4;
    MatchesAt(t, 0);
    assert !DefinitionAt(t, 4);
    MatchesSkip(t, 4);
    RedefinitionSecondLine(t);
  }

  lemma RedefinitionSecondLine(t: string)
    requires t == "a: 1\na: 2\n"
    ensures Matches(t, 5) == [5]
  {
    assert WordRun(t, 5) == 1 && DefinitionAt(t, 5);
    assert SkipWhitespace(t, 7) == 8 && SkipToNewline(t, 8) == 9;
    MatchesAt(t, 5);
    assert !DefinitionAt(t, 9);
    MatchesSkip(t, 9);
  }

  lemma RedefinitionSpans(t: string)
    requires t == "a: 1\na: 2\n"
    ensures NameAt(t, 0) == "a" && NameAt(t, 5) == "a"
    ensures SpanAt(t, 5) == Range(Position(1, 0), Position(1, 1))
  {
    assert WordRun(t, 0) == 1 && WordRun(t, 5) == 1;
    assert t[..5] == "a: 1\n";
    assert CountNewlines("a: 1\n") == 1;
  }

  /** A definition on a later line overwrites an earlier one:
      `"a: 1\na: 2\n"` scans to `{a: (1,0)-(1,1)}`. */
  lemma {:induction false} ScanRedefinition(t: string)
    requires t == "a: 1\na: 2\n"
    ensures Scan(t) == map["a" := Range(Position(1, 0), Position(1, 1))]
  {
    RedefinitionMatches(t);
    RedefinitionSpans(t);
    RecordTwo(t, 0, 5);
    var a := Range(Position(1, 0), Position(1, 1));
    assert Scan(t) == Record(t, [0, 5], map[]);
    assert Scan(t) == map[NameAt(t, 0) := SpanAt(t, 0)][NameAt(t, 5) := SpanAt(t, 5)];
    assert Scan(t) == map["a" := SpanAt(t, 0)]["a" := a];
    assert map["a" := SpanAt(t, 0)]["a" := a] == map["a" := a];
  }

  lemma TwoDefinitionsMatches(t: string)
    requires t == "x: 1\ny: x + 2\n"
    ensures Matches(t, 0) == [0, 5]
  {
    TwoDefinitionsFirstLine(t);
    MatchesAt(t, 0);
    assert !DefinitionAt(t, 4);
    MatchesSkip(t, 4);
    TwoDefinitionsSecondLine(t);
  }

  lemma TwoDefinitionsFirstLine(t: string)
    requires t == "x: 1\ny: x + 2\n"
    ensures DefinitionAt(t, 0) && MatchEnd(t, 0) == 4
  {
    assert WordRun(t, 0) == 1 && DefinitionAt(t, 0);
    assert SkipWhitespace(t, 2) == 3 && SkipToNewline(t, 3) == 4;
  }

  lemma TwoDefinitionsSecondLine(t: string)
    requires t == "x: 1\ny: x + 2\n"
    ensures Matches(t, 5) == [5]
  {
    assert WordRun(t, 5) == 1 && DefinitionAt(t, 5);
    assert SkipWhitespace(t, 7) == 8;
    assert SkipToNewline(t, 12) == 13 && SkipToNewline(t, 10) == 13 && SkipToNewline(t, 8) == 13;
    MatchesAt(t, 5);
    assert !DefinitionAt(t, 13);
    MatchesSkip(t, 13);
  }

  lemma TwoDefinitionsSpans(t: string)
    requires t == "x: 1\ny: x + 2\n"
    ensures NameAt(t, 0) == "x" && NameAt(t, 5) == "y"
    ensures SpanAt(t, 0) == Range(Position(0, 0), Position(0, 1))
    ensures SpanAt(t, 5) == Range(Position(1, 0), Position(1, 1))
  {
    assert WordRun(t, 0) == 1 && WordRun(t, 5) == 1;
    assert t[..0] == [];
    assert t[..5] == "x: 1\n";
    assert CountNewlines("x: 1\n") == 1;
  }

  /** `"x: 1\ny: x + 2\n"` scans to `{x: (0,0)-(0,1), y: (1,0)-(1,1)}`. */
  lemma {:induction false} ScanTwoDefinitions(t: string)
    requires t == "x: 1\ny: x + 2\n"
    ensures Scan(t) == map["x" := Range(Position(0, 0), Position(0, 1)), "y" := Range(Position(1, 0), Position(1, 1))]
  {
    TwoDefinitionsMatches(t);
    TwoDefinitionsSpans(t);
    RecordTwo(t, 0, 5);
    assert Scan(t) == Record(t, [0, 5], map[]);
  }

  /** `\s*` crosses line feeds: after `a:` with nothing else on its line, the
      match runs on through `b: 1`, so `"a:\nb: 1"` defines only `a`. */
  lemma {:induction false} ScanSwallowsNextLine(t: string)
    requires t == "a:\nb: 1"
    ensures Scan(t) == map["a" := Range(Position(0, 0), Position(0, 1))]
  {
    assert WordRun(t, 0) == 1 && DefinitionAt(t, 0);
    assert SkipWhitespace(t, 2) == 3;
    assert SkipToNewline(t, 6) == 7;
    assert SkipToNewline(t, 5) == 7;
    assert SkipToNewline(t, 4) == 7;
    assert SkipToNewline(t, 3) == 7;
    assert MatchEnd(t, 0) == 7 && Matches(t, 7) == [];
    MatchesAt(t, 0);
    assert Matches(t, 0) == [0];
    assert Scan(t) == Record(t, [0], map[]);
    assert [0][1..] == [];
    assert Record(t, [0], map[]) == map[NameAt(t, 0) := SpanAt(t, 0)];
    assert NameAt(t, 0) == "a";
    assert t[..0] == [];
  }
}
