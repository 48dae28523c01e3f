/** `extract_variable_at_position`: the identifier under the cursor, that is
    the maximal run of identifier characters (alphanumeric or `_`) that
    touches the cursor position. The later draft finds the run's ends by
    searching for the nearest non-identifier character on each side; the
    earlier draft counts identifier characters on each side. Both slice the
    line at the cursor, which panics when the cursor lies past the line end;
    the callers check that case, so here the cursor is within the line. */
module Extractor {
  import opened Text

  /** `line[s..e]` is the maximal run of identifier characters around `pos`. */
  predicate MaximalRun(line: string, pos: nat, s: nat, e: nat) {
    s <= pos <= e <= |line|
    && (forall i :: s <= i < e ==> IsIdentChar(line[i]))
    && (s == 0 || !IsIdentChar(line[s - 1]))
    && (e == |line| || !IsIdentChar(line[e]))
  }

  /** There is only one maximal run around a position. */
  lemma MaximalRunUnique(line: string, pos: nat, s: nat, e: nat, s': nat, e': nat)
    requires MaximalRun(line, pos, s, e) && MaximalRun(line, pos, s', e')
    ensures s == s' && e == e'
  {
  }

  /** `s.char_indices().rev().find(|c| !is_variable_char(c))`: the index of
      the last non-identifier character of `s`, if any. */
  function LastNonIdent(s: string): (r: Option<nat>)
    ensures r.Some? ==> r.value < |s| && !IsIdentChar(s[r.value])
    ensures forall i :: (if r.Some? then r.value + 1 else 0) <= i < |s| ==> IsIdentChar(s[i])
  {
    if s == [] then None
    else if !IsIdentChar(s[|s| - 1]) then Some(|s| - 1)
    else LastNonIdent(s[..|s| - 1])
  }

  /** `s.char_indices().find(|c| !is_variable_char(c))`: the index of the
      first non-identifier character of `s`, if any. */
  function FirstNonIdent(s: string): (r: Option<nat>)
    ensures r.Some? ==> r.value < |s| && !IsIdentChar(s[r.value])
    ensures forall i :: 0 <= i < (if r.Some? then r.value else |s|) ==> IsIdentChar(s[i])
  {
    if s == [] then None
    else if !IsIdentChar(s[0]) then Some(0)
    else match FirstNonIdent(s[1..])
      case None => None
      case Some(k) => Some(k + 1)
  }

  /** `extract_variable_at_position` of the later draft (s/m.rs:41-60). The
      final guard always holds, so the `""` fallback is never taken. */
  function ExtractVariableAtPosition(line: string, pos: nat): (token: string)
    requires pos <= |line|
    ensures exists s: nat, e: nat :: MaximalRun(line, pos, s, e) && token == line[s..e]
    ensures token == [] <==>
      (pos == 0 || !IsIdentChar(line[pos - 1])) && (pos == |line| || !IsIdentChar(line[pos]))
  {
    var start := match LastNonIdent(line[..pos]) case None => 0 case Some(idx) => idx + 1;
    var end := match FirstNonIdent(line[pos..]) case None => |line| case Some(idx) => pos + idx;
    assert MaximalRun(line, pos, start, end) by {
      forall i | start <= i < pos ensures IsIdentChar(line[i]) {
        assert line[i] == line[..pos][i];
      }
      forall i | pos <= i < end ensures IsIdentChar(line[i]) {
        assert line[i] == line[pos..][i - pos];
      }
      if end < |line| {
        assert line[end] == line[pos..][end - pos];
      }
    }
    if start <= |line| && end <= |line| && start <= end then line[start..end] else ""
  }

  /** `chars().rev().take_while(is_variable_char).count()`: the number of
      identifier characters at the end of `s`. */
  function RunBefore(s: string): (n: nat)
    ensures n <= |s|
    ensures forall i :: |s| - n <= i < |s| ==> IsIdentChar(s[i])
    ensures n == |s| || !IsIdentChar(s[|s| - n - 1])
  {
    if s == [] || !IsIdentChar(s[|s| - 1]) then 0 else 1 + RunBefore(s[..|s| - 1])
  }

  /** `extract_variable_at_position` of the earlier draft (src/main.rs:41-55):
      step back over the identifier characters before the cursor and forward
      over those from it. */
  function ExtractByCounting(line: string, pos: nat): (token: string)
    requires pos <= |line|
    ensures exists s: nat, e: nat :: MaximalRun(line, pos, s, e) && token == line[s..e]
  {
    var start := RunBefore(line[..pos]);
    var startIndex := pos - start;
    var endIndex := pos + WordRun(line, pos);
    assert MaximalRun(line, pos, startIndex, endIndex) by {
      WordRunIdent(line, pos);
      forall i | startIndex <= i < pos ensures IsIdentChar(line[i]) {
        assert line[i] == line[..pos][i];
      }
      if startIndex > 0 {
        assert line[startIndex - 1] == line[..pos][pos - start - 1];
      }
    }
    line[startIndex..endIndex]
  }

  /** The two drafts extract the same token wherever neither panics. */
  lemma ExtractorsAgree(line: string, pos: nat)
    requires pos <= |line|
    ensures ExtractVariableAtPosition(line, pos) == ExtractByCounting(line, pos)
  {
    var later := ExtractVariableAtPosition(line, pos);
    var earlier := ExtractByCounting(line, pos);
    var s: nat, e: nat :| MaximalRun(line, pos, s, e) && later == line[s..e];
    var s': nat, e': nat :| MaximalRun(line, pos, s', e') && earlier == line[s'..e'];
    MaximalRunUnique(line, pos, s, e, s', e');
  }
}
