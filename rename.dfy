/** The edit list of `rename`: for each line of the document, search for the
    old name left to right; an occurrence whose neighbours are not
    alphanumeric becomes an edit, and the search resumes after the
    occurrence whether or not it was edited. */
module Renaming {
  import opened Text
  import opened Lsp

  /** `needle` occurs in `s` starting at index `i`. */
  predicate OccursAt(s: string, needle: string, i: nat) {
    i + |needle| <= |s| && s[i..i + |needle|] == needle
  }

  /** The first occurrence of `needle` in `s` at or after index `i`. */
  function FindFrom(s: string, needle: string, i: nat): (r: Option<nat>)
    ensures r.Some? ==> i <= r.value && r.value + |needle| <= |s|
    decreases |s| - i
  {
    if i + |needle| > |s| then None
    else if OccursAt(s, needle, i) then Some(i)
    else FindFrom(s, needle, i + 1)
  }

  /** `str::find`: the index of the first occurrence of `needle` in `s`
      (an empty needle occurs at 0). */
  function Find(s: string, needle: string): Option<nat> {
    FindFrom(s, needle, 0)
  }

  /** `FindFrom` returns the first occurrence at or after `i`, or `None`
      when there is none. */
  lemma {:induction false} FindFromFirst(s: string, needle: string, i: nat)
    ensures match FindFrom(s, needle, i)
      case None => (forall k: nat :: i <= k ==> !OccursAt(s, needle, k))
      case Some(f) => (i <= f && OccursAt(s, needle, f) && forall k: nat :: i <= k < f ==> !OccursAt(s, needle, k))
    decreases |s| - i
  {
    if i + |needle| <= |s| && s[i..i + |needle|] != needle {
      FindFromFirst(s, needle, i + 1);
    }
  }

  /** Occurrences in a suffix are occurrences in the whole, shifted. */
  lemma OccursInSuffix(s: string, needle: string, from: nat, k: nat)
    requires from <= |s|
    ensures OccursAt(s[from..], needle, k) <==> OccursAt(s, needle, from + k)
  {
    if k + |needle| <= |s[from..]| {
      assert s[from..][k..k + |needle|] == s[from + k..from + k + |needle|];
    }
  }

  /** Searching the suffix that starts at `from` finds the first occurrence
      at or after `from`, counted from `from`. */
  lemma {:induction false} FindInSuffix(s: string, needle: string, from: nat, k: nat)
    requires from <= |s|
    ensures FindFrom(s[from..], needle, k) == match FindFrom(s, needle, from + k)
      case None => None
      case Some(f) => Some(f - from)
    decreases |s| - from - k
  {
    OccursInSuffix(s, needle, from, k);
    if k + |needle| <= |s[from..]| && !OccursAt(s, needle, from + k) {
      FindInSuffix(s, needle, from, k + 1);
    }
  }

  /** The boundary test of `rename`: the characters just before and just
      after the occurrence, where they exist, are not alphanumeric. An
      adjacent `'_'` therefore does not block a match. */
  predicate WholeWord(line: string, start: nat, end: nat)
    requires start <= end <= |line|
  {
    (start == 0 || !IsAlphanumeric(line[start - 1]))
    && (end == |line| || !IsAlphanumeric(line[end]))
  }

  /** The edit replacing columns `start..end` of line `row`. */
  function EditAt(row: nat, start: nat, end: nat, newName: string): TextEdit {
    TextEdit(Range(Position(row, start), Position(row, end)), newName)
  }

  /** The edits the search over `line` pushes when it starts at `from`. */
  function LineEdits(line: string, row: nat, name: string, newName: string, from: nat): seq<TextEdit>
    requires |name| > 0 && from <= |line|
    decreases |line| - from
  {
    match FindFrom(line, name, from)
    case None => []
    case Some(start) =>
      var end := start + |name|;
      (if WholeWord(line, start, end) then [EditAt(row, start, end, newName)] else [])
        + LineEdits(line, row, name, newName, end)
  }

  /** One round of the search: the next occurrence at or after `from`
      becomes an edit when it is a whole word, and the search resumes at
      its end. */
  lemma LineEditsStep(line: string, row: nat, name: string, newName: string, from: nat, start: nat)
    requires |name| > 0 && from <= |line| && FindFrom(line, name, from) == Some(start)
    ensures start + |name| <= |line|
    ensures LineEdits(line, row, name, newName, from)
        == (if WholeWord(line, start, start + |name|) then [EditAt(row, start, start + |name|, newName)] else [])
          + LineEdits(line, row, name, newName, start + |name|)
  {
    FindFromFirst(line, name, from);
  }

  /** `e` is a correct edit of `lines` for renaming `name` to `newName`: it
      lies on one line, covers an occurrence of `name` there that passes the
      boundary test, and replaces it with `newName`. */
  predicate ValidEdit(lines: seq<string>, name: string, newName: string, e: TextEdit) {
    var row := e.range.start.line;
    var start := e.range.start.character;
    var end := e.range.end.character;
    row == e.range.end.line && row < |lines|
    && end == start + |name| && OccursAt(lines[row], name, start)
    && WholeWord(lines[row], start, end)
    && e.newText == newName
  }

  predicate AllValid(lines: seq<string>, name: string, newName: string, edits: seq<TextEdit>) {
    forall i :: 0 <= i < |edits| ==> ValidEdit(lines, name, newName, edits[i])
  }

  /** Every edit starts on line `row`, at column `from` or later. */
  predicate OnRowFrom(edits: seq<TextEdit>, row: nat, from: nat) {
    forall i :: 0 <= i < |edits| ==> edits[i].range.start.line == row && from <= edits[i].range.start.character
  }

  /** `a` ends no later than `b` starts, in (line, column) order. */
  predicate Precedes(a: TextEdit, b: TextEdit) {
    a.range.end.line < b.range.start.line
    || (a.range.end.line == b.range.start.line && a.range.end.character <= b.range.start.character)
  }

  /** The edits are in increasing (line, column) order and do not overlap. */
  predicate Ordered(edits: seq<TextEdit>) {
    forall i, j :: 0 <= i < j < |edits| ==> Precedes(edits[i], edits[j])
  }

  lemma AllValidAppend(lines: seq<string>, name: string, newName: string, a: seq<TextEdit>, b: seq<TextEdit>)
    requires AllValid(lines, name, newName, a) && AllValid(lines, name, newName, b)
    ensures AllValid(lines, name, newName, a + b)
  {
    forall i | 0 <= i < |a + b| ensures ValidEdit(lines, name, newName, (a + b)[i]) {
      if i >= |a| {
        assert (a + b)[i] == b[i - |a|];
      }
    }
  }

  lemma OrderedAppend(a: seq<TextEdit>, b: seq<TextEdit>)
    requires Ordered(a) && Ordered(b)
    requires forall i, j :: 0 <= i < |a| && 0 <= j < |b| ==> Precedes(a[i], b[j])
    ensures Ordered(a + b)
  {
    forall i, j | 0 <= i < j < |a + b| ensures Precedes((a + b)[i], (a + b)[j]) {
      if j < |a| {
        assert (a + b)[i] == a[i] && (a + b)[j] == a[j];
      } else if i < |a| {
        assert (a + b)[i] == a[i] && (a + b)[j] == b[j - |a|];
      } else {
        assert (a + b)[i] == b[i - |a|] && (a + b)[j] == b[j - |a|];
      }
    }
  }

  lemma OnRowFromPrepend(e: TextEdit, rest: seq<TextEdit>, row: nat, from: nat)
    requires e.range.start.line == row && from <= e.range.start.character
    requires OnRowFrom(rest, row, from)
    ensures OnRowFrom([e] + rest, row, from)
  {
    forall i | 0 <= i < |[e] + rest|
      ensures ([e] + rest)[i].range.start.line == row && from <= ([e] + rest)[i].range.start.character
    {
      if i > 0 {
        assert ([e] + rest)[i] == rest[i - 1];
      }
    }
  }

  /** Putting the edit for a whole-word occurrence at `start` in front of
      sound edits that follow it keeps them sound. */
  lemma PrependSound(lines: seq<string>, row: nat, name: string, newName: string, from: nat, start: nat, rest: seq<TextEdit>)
    requires row < |lines| && from <= start && OccursAt(lines[row], name, start)
    requires AllValid(lines, name, newName, rest) && OnRowFrom(rest, row, start + |name|) && Ordered(rest)
    ensures var here := if WholeWord(lines[row], start, start + |name|) then [EditAt(row, start, start + |name|, newName)] else [];
      AllValid(lines, name, newName, here + rest) && OnRowFrom(here + rest, row, from) && Ordered(here + rest)
  {
    if WholeWord(lines[row], start, start + |name|) {
      var e := EditAt(row, start, start + |name|, newName);
      assert ValidEdit(lines, name, newName, e);
      AllValidAppend(lines, name, newName, [e], rest);
      OrderedAppend([e], rest);
      OnRowFromPrepend(e, rest, row, from);
    } else {
      assert [] + rest == rest;
    }
  }

  /** The line's edits are valid, lie on line `row` at or after `from`, and
      are in increasing, non-overlapping order. */
  lemma {:induction false} LineEditsSound(lines: seq<string>, row: nat, name: string, newName: string, from: nat)
    requires row < |lines| && |name| > 0 && from <= |lines[row]|
    ensures var edits := LineEdits(lines[row], row, name, newName, from);
      AllValid(lines, name, newName, edits) && OnRowFrom(edits, row, from) && Ordered(edits)
    decreases |lines[row]| - from
  {
    var line := lines[row];
    if FindFrom(line, name, from).Some? {
      var start := FindFrom(line, name, from).value;
      FindFromFirst(line, name, from);
      LineEditsStep(line, row, name, newName, from, start);
      LineEditsSound(lines, row, name, newName, start + |name|);
      PrependSound(lines, row, name, newName, from, start, LineEdits(line, row, name, newName, start + |name|));
    }
  }

  /** The search misses a whole-word occurrence only when an earlier
      occurrence overlaps it: if no occurrence at or after `from` straddles
      position `i`, the occurrence at `i` gets an edit. */
  lemma {:induction false} LineEditAt(line: string, row: nat, name: string, newName: string, from: nat, i: nat)
    returns (j: nat)
    requires |name| > 0 && from <= i && OccursAt(line, name, i) && WholeWord(line, i, i + |name|)
    requires forall k: nat :: from <= k < i < k + |name| ==> !OccursAt(line, name, k)
    ensures j < |LineEdits(line, row, name, newName, from)|
    ensures LineEdits(line, row, name, newName, from)[j] == EditAt(row, i, i + |name|, newName)
    decreases |line| - from
  {
    FindFromFirst(line, name, from);
    var start := FindFrom(line, name, from).value;
    LineEditsStep(line, row, name, newName, from, start);
    var end := start + |name|;
    var here: seq<TextEdit> := if WholeWord(line, start, end) then [EditAt(row, start, end, newName)] else [];
    var rest := LineEdits(line, row, name, newName, end);
    assert LineEdits(line, row, name, newName, from) == here + rest;
    if start == i {
      j := 0;
      assert here == [EditAt(row, i, i + |name|, newName)];
      assert (here + rest)[0] == here[0];
    } else {
      assert start < i && end <= i;
      var j' := LineEditAt(line, row, name, newName, end, i);
      j := |here| + j';
      assert (here + rest)[j] == rest[j'];
    }
  }

  /** The edits of the first `n` lines, in line order. */
  function DocumentEdits(lines: seq<string>, name: string, newName: string, n: nat): seq<TextEdit>
    requires |name| > 0 && n <= |lines|
  {
    if n == 0 then []
    else DocumentEdits(lines, name, newName, n - 1) + LineEdits(lines[n - 1], n - 1, name, newName, 0)
  }

  /** Every edit of the document is valid and lies on one of the first `n`
      lines, and the edits are ordered by (line, column) without overlapping. */
  lemma {:induction false} DocumentEditsSound(lines: seq<string>, name: string, newName: string, n: nat)
    requires |name| > 0 && n <= |lines|
    ensures var edits := DocumentEdits(lines, name, newName, n);
      AllValid(lines, name, newName, edits) && Ordered(edits)
      && forall i :: 0 <= i < |edits| ==> edits[i].range.end.line < n
  {
    if n > 0 {
      DocumentEditsSound(lines, name, newName, n - 1);
      LineEditsSound(lines, n - 1, name, newName, 0);
      var before := DocumentEdits(lines, name, newName, n - 1);
      var last := LineEdits(lines[n - 1], n - 1, name, newName, 0);
      AllValidAppend(lines, name, newName, before, last);
      OrderedAppend(before, last);
      forall i | 0 <= i < |before + last| ensures (before + last)[i].range.end.line < n {
        if i >= |before| {
          assert (before + last)[i] == last[i - |before|];
        }
      }
    }
  }

  /** A line's edits appear among the document's. */
  lemma {:induction false} DocumentEditsInclude(lines: seq<string>, name: string, newName: string, n: nat, row: nat, j: nat)
    requires |name| > 0 && row < n <= |lines|
    requires j < |LineEdits(lines[row], row, name, newName, 0)|
    ensures LineEdits(lines[row], row, name, newName, 0)[j] in DocumentEdits(lines, name, newName, n)
  {
    var before := DocumentEdits(lines, name, newName, n - 1);
    var last := LineEdits(lines[n - 1], n - 1, name, newName, 0);
    if row == n - 1 {
      assert (before + last)[|before| + j] == last[j];
    } else {
      DocumentEditsInclude(lines, name, newName, n - 1, row, j);
    }
  }

  /** Every whole-word occurrence of the name that no earlier occurrence on
      its line overlaps is renamed. For a name made of letters and digits
      only, the overlap condition follows from the occurrence being a whole
      word, since an overlapping occurrence would put a letter or digit next
      to it. A name with `_` can have a whole-word occurrence that the
      search skips: the second `a_a` in `a_a_a_a` starts inside the first. */
  lemma DocumentEditsComplete(lines: seq<string>, name: string, newName: string, row: nat, i: nat)
    requires |name| > 0 && row < |lines|
    requires OccursAt(lines[row], name, i) && WholeWord(lines[row], i, i + |name|)
    requires forall k: nat :: k < i < k + |name| ==> !OccursAt(lines[row], name, k)
    ensures EditAt(row, i, i + |name|, newName) in DocumentEdits(lines, name, newName, |lines|)
  {
    var j := LineEditAt(lines[row], row, name, newName, 0, i);
    DocumentEditsInclude(lines, name, newName, |lines|, row, j);
  }

  /** `line[from..].find(name)`, shifted back by `from`, is the search
      for the first occurrence at or after `from`. */
  lemma FindSuffix(line: string, name: string, from: nat)
    requires from <= |line|
    ensures Find(line[from..], name) == match FindFrom(line, name, from)
      case None => None
      case Some(f) => Some(f - from)
    ensures FindFrom(line, name, from).Some? ==> from <= FindFrom(line, name, from).value
  {
    FindInSuffix(line, name, from, 0);
    FindFromFirst(line, name, from);
  }

  /** The search loop of `rename` on one line as written, over the slices
      it searches: `acc` is what has been pushed so far and the search
      resumes at `from`. */
  function SearchFrom(acc: seq<TextEdit>, line: string, row: nat, name: string, newName: string, from: nat): seq<TextEdit>
    requires |name| > 0 && from <= |line|
    decreases |line| - from
  {
    match Find(line[from..], name)
    case None => acc
    case Some(k) =>
      var start := from + k;
      var end := start + |name|;
      SearchFrom(if WholeWord(line, start, end) then acc + [EditAt(row, start, end, newName)] else acc,
        line, row, name, newName, end)
  }

  /** The loop as written pushes, after `acc`, exactly the edits `LineEdits`
      describes: searching the slice `line[from..]` and shifting back by
      `from` is the search from `from`. */
  lemma {:induction false} SearchFromEdits(acc: seq<TextEdit>, line: string, row: nat, name: string, newName: string, from: nat)
    requires |name| > 0 && from <= |line|
    ensures SearchFrom(acc, line, row, name, newName, from) == acc + LineEdits(line, row, name, newName, from)
    decreases |line| - from
  {
    match Find(line[from..], name)
    case None =>
      FindSuffix(line, name, from);
      assert LineEdits(line, row, name, newName, from) == [];
      assert acc + [] == acc;
    case Some(k) =>
      FindSuffix(line, name, from);
      var end := from + k + |name|;
      LineEditsStep(line, row, name, newName, from, from + k);
      var rest := LineEdits(line, row, name, newName, end);
      var x := if WholeWord(line, from + k, end) then [EditAt(row, from + k, end, newName)] else [];
      assert LineEdits(line, row, name, newName, from) == x + rest;
      SearchFromStep(acc, acc + x, line, row, name, newName, from, k, end);
      SearchFromEdits(acc + x, line, row, name, newName, end);
      assert SearchFrom(acc + x, line, row, name, newName, end) == (acc + x) + rest;
      AppendAssoc(acc, x, rest);
  }

  lemma AppendAssoc(a: seq<TextEdit>, b: seq<TextEdit>, c: seq<TextEdit>)
    ensures (a + b) + c == a + (b + c)
  {
  }

  /** One round of the loop as written: the occurrence `line[from..].find`
      reports at `k` ends at `end`, and the search resumes there with
      `pushed`. */
  lemma SearchFromStep(acc: seq<TextEdit>, pushed: seq<TextEdit>, line: string, row: nat, name: string, newName: string, from: nat, k: nat, end: nat)
    requires |name| > 0 && from <= |line| && Find(line[from..], name) == Some(k)
    requires end == from + k + |name| <= |line|
    requires pushed == if WholeWord(line, from + k, end) then acc + [EditAt(row, from + k, end, newName)] else acc
    ensures SearchFrom(acc, line, row, name, newName, from) == SearchFrom(pushed, line, row, name, newName, end)
  {
  }

  /** The inner loop of `rename` (s/m.rs:125-143) on one line: resume the
      search at the end of the previous occurrence until none is left,
      pushing an edit for each whole-word occurrence. The name is never
      empty, so each round moves the search forward. */
  method CollectLineEdits(line: string, row: nat, name: string, newName: string, edits: seq<TextEdit>)
    returns (pushed: seq<TextEdit>)
    requires |name| > 0
    ensures pushed == edits + LineEdits(line, row, name, newName, 0)
  {
    pushed := edits;
    var startCharIndex := 0;
    var found := Find(line[startCharIndex..], name);
    while found.Some?
      invariant startCharIndex <= |line|
      invariant found == Find(line[startCharIndex..], name)
      invariant SearchFrom(pushed, line, row, name, newName, startCharIndex) == SearchFrom(edits, line, row, name, newName, 0)
      decreases |line| - startCharIndex
    {
      var start := startCharIndex + found.value;
      var end := start + |name|;
      if WholeWord(line, start, end) {
        pushed := pushed + [EditAt(row, start, end, newName)];
      }
      startCharIndex := end;
      found := Find(line[startCharIndex..], name);
    }
    SearchFromEdits(edits, line, row, name, newName, 0);
  }

  /** The nested loops of `rename` (s/m.rs:123-143): the edits of every
      line, in line order. */
  method CollectEdits(lines: seq<string>, name: string, newName: string) returns (edits: seq<TextEdit>)
    requires |name| > 0
    ensures edits == DocumentEdits(lines, name, newName, |lines|)
  {
    edits := [];
    for row := 0 to |lines|
      invariant edits == DocumentEdits(lines, name, newName, row)
    {
      edits := CollectLineEdits(lines[row], row, name, newName, edits);
    }
  }

  /** An adjacent `'_'` does not block a match: renaming `x` in `"x_1"`
      edits its first column, because `'_'` is not alphanumeric. */
  lemma UnderscoreDoesNotBlock(line: string)
    requires line == "x_1"
    ensures LineEdits(line, 0, "x", "z", 0) == [EditAt(0, 0, 1, "z")]
  {
    assert FindFrom(line, "x", 0) == Some(0);
    LineEditsStep(line, 0, "x", "z", 0, 0);
    assert FindFrom(line, "x", 2) == None;
    assert FindFrom(line, "x", 1) == None;
    assert WholeWord(line, 0, 1);
  }

  /** An alphanumeric neighbour does block it: `x` in `"x1"` is not renamed. */
  lemma AlphanumericBlocks(line: string)
    requires line == "x1"
    ensures LineEdits(line, 0, "x", "z", 0) == []
  {
    assert FindFrom(line, "x", 0) == Some(0);
    LineEditsStep(line, 0, "x", "z", 0, 0);
    assert FindFrom(line, "x", 1) == None;
    assert !WholeWord(line, 0, 1);
  }

  lemma FirstLineEdits(line: string)
    requires line == "x: 1"
    ensures LineEdits(line, 0, "x", "z", 0) == [EditAt(0, 0, 1, "z")]
  {
    assert FindFrom(line, "x", 0) == Some(0);
    LineEditsStep(line, 0, "x", "z", 0, 0);
    assert FindFrom(line, "x", 3) == None;
    assert FindFrom(line, "x", 1) == None;
    assert WholeWord(line, 0, 1);
  }

  lemma SecondLineEdits(line: string)
    requires line == "y: x + 2"
    ensures LineEdits(line, 1, "x", "z", 0) == [EditAt(1, 3, 4, "z")]
  {
    assert FindFrom(line, "x", 3) == Some(3);
    assert line[2..3][0] != "x"[0];
    assert FindFrom(line, "x", 2) == Some(3);
    assert FindFrom(line, "x", 1) == Some(3);
    assert FindFrom(line, "x", 0) == Some(3);
    LineEditsStep(line, 1, "x", "z", 0, 3);
    assert FindFrom(line, "x", 8) == None;
    assert FindFrom(line, "x", 7) == None;
    assert FindFrom(line, "x", 6) == None;
    assert FindFrom(line, "x", 5) == None;
    assert FindFrom(line, "x", 4) == None;
    assert WholeWord(line, 3, 4);
  }

  /** Renaming `x` to `z` over the lines `"x: 1"` and `"y: x + 2"` edits
      (0,0)-(0,1) and then (1,3)-(1,4). */
  lemma RenameExample(lines: seq<string>)
    requires lines == ["x: 1", "y: x + 2"]
    ensures DocumentEdits(lines, "x", "z", |lines|) == [EditAt(0, 0, 1, "z"), EditAt(1, 3, 4, "z")]
  {
    FirstLineEdits(lines[0]);
    SecondLineEdits(lines[1]);
    assert DocumentEdits(lines, "x", "z", 1) == [] + [EditAt(0, 0, 1, "z")];
  }
}
