/** Character classes and the few pieces of Rust's `str` API the language
    server relies on (`lines`, `split('\n')`, `trim`, `find`), stated over
    `seq<char>` with one unit per character. */
module Text {

  datatype Option<T> = None | Some(value: T)

  /** `char::is_alphanumeric`, restricted to ASCII. */
  predicate IsAlphanumeric(c: char) {
    ('a' <= c <= 'z') || ('A' <= c <= 'Z') || ('0' <= c <= '9')
  }

  /** An identifier character: alphanumeric or `_`. This is both the regex
      class `\w` and the server's `is_variable_char` closure. */
  predicate IsIdentChar(c: char) {
    IsAlphanumeric(c) || c == '_'
  }

  /** `char::is_whitespace` and the regex class `\s`, restricted to ASCII:
      space, tab, line feed, vertical tab, form feed, carriage return. */
  predicate IsWhitespace(c: char) {
    c == ' ' || (9 <= c as int <= 13)
  }

  predicate StartsWith(s: string, prefix: string) {
    |prefix| <= |s| && s[..|prefix|] == prefix
  }

  /** Number of line feeds in `s`. */
  function CountNewlines(s: string): nat {
    if s == [] then 0 else (if s[0] == '\n' then 1 else 0) + CountNewlines(s[1..])
  }

  lemma {:induction false} CountNewlinesAppend(a: string, b: string)
    ensures CountNewlines(a + b) == CountNewlines(a) + CountNewlines(b)
  {
    if a == [] {
      assert a + b == b;
    } else {
      assert (a + b)[1..] == a[1..] + b;
      CountNewlinesAppend(a[1..], b);
    }
  }

  /** Index of the first `c` in `s`, or `|s|` when there is none. */
  function IndexOfChar(s: string, c: char): (i: nat)
    ensures i <= |s|
  {
    if s == [] then 0 else if s[0] == c then 0 else 1 + IndexOfChar(s[1..], c)
  }

  /** `IndexOfChar` stops at the first `c`, and only there. */
  lemma {:induction false} IndexOfCharFirst(s: string, c: char)
    ensures forall j :: 0 <= j < IndexOfChar(s, c) ==> s[j] != c
    ensures IndexOfChar(s, c) < |s| ==> s[IndexOfChar(s, c)] == c
  {
    if s != [] && s[0] != c {
      IndexOfCharFirst(s[1..], c);
      forall j | 1 <= j < IndexOfChar(s, c) ensures s[j] != c {
        assert s[j] == s[1..][j - 1];
      }
    }
  }

  /** `IndexOfChar` finds the first occurrence. */
  lemma {:induction false} IndexOfCharAt(s: string, c: char, n: nat)
    requires n < |s| && s[n] == c && forall j :: 0 <= j < n ==> s[j] != c
    ensures IndexOfChar(s, c) == n
  {
    if n > 0 {
      assert s[1..][n - 1] == s[n];
      IndexOfCharAt(s[1..], c, n - 1);
    }
  }

  /** Length of the run of identifier characters that starts at `p`
      (the count `take_while(is_variable_char)` produces, and the extent of
      the regex's `\w+`). */
  function WordRun(s: string, p: nat): (n: nat)
    requires p <= |s|
    ensures p + n <= |s|
    ensures p + n == |s| || !IsIdentChar(s[p + n])
    decreases |s| - p
  {
    if p == |s| || !IsIdentChar(s[p]) then 0 else 1 + WordRun(s, p + 1)
  }

  /** Every character of the run is an identifier character. */
  lemma {:induction false} WordRunIdent(s: string, p: nat)
    requires p <= |s|
    ensures forall i :: p <= i < p + WordRun(s, p) ==> IsIdentChar(s[i])
    decreases |s| - p
  {
    if p < |s| && IsIdentChar(s[p]) {
      WordRunIdent(s, p + 1);
    }
  }

  /** Drops a final `'\r'`, as `str::lines` does for a line ended by `"\r\n"`. */
  function StripCarriageReturn(line: string): string {
    if |line| > 0 && line[|line| - 1] == '\r' then line[..|line| - 1] else line
  }

  /** `str::lines`: split after each `'\n'`, drop the terminator (and a `'\r'`
      before it); a final empty piece is not a line, so `""` has no lines. */
  function Lines(s: string): seq<string>
    decreases |s|
  {
    if s == [] then []
    else
      var i := IndexOfChar(s, '\n');
      if i == |s| then [s]
      else [StripCarriageReturn(s[..i])] + Lines(s[i + 1..])
  }

  /** No line contains a line feed. */
  lemma {:induction false} LinesHaveNoNewline(s: string)
    ensures forall k :: 0 <= k < |Lines(s)| ==> '\n' !in Lines(s)[k]
    decreases |s|
  {
    if s != [] {
      var i := IndexOfChar(s, '\n');
      IndexOfCharFirst(s, '\n');
      if i < |s| {
        LinesHaveNoNewline(s[i + 1..]);
        var first := StripCarriageReturn(s[..i]);
        assert '\n' !in first by {
          forall j | 0 <= j < |first| ensures first[j] != '\n' {
            assert first[j] == s[j];
          }
        }
        var ls := [first] + Lines(s[i + 1..]);
        forall k | 1 <= k < |ls| ensures '\n' !in ls[k] {
          assert ls[k] == Lines(s[i + 1..])[k - 1];
        }
      } else {
        assert '\n' !in s by {
          forall j | 0 <= j < |s| ensures s[j] != '\n' {
          }
        }
      }
    }
  }

  /** Text without a line feed has at most one line. */
  lemma AtMostOneLine(s: string)
    requires '\n' !in s
    ensures |Lines(s)| <= 1
  {
    if s != [] {
      IndexOfCharFirst(s, '\n');
    }
  }

  lemma {:induction false} NoNewlineCount(s: string)
    requires '\n' !in s
    ensures CountNewlines(s) == 0
  {
    if s != [] {
      assert '\n' !in s[1..] by {
        forall k | 0 <= k < |s[1..]| ensures s[1..][k] != '\n' { assert s[1..][k] == s[k + 1]; }
      }
      NoNewlineCount(s[1..]);
    }
  }

  /** `lines().nth(n).unwrap_or("")`. */
  function NthLine(s: string, n: nat): string {
    var ls := Lines(s);
    if n < |ls| then ls[n] else ""
  }

  /** Collecting string pieces into one `String`: concatenation, no separator. */
  function Concat(ls: seq<string>): string {
    if ls == [] then [] else Concat(ls[..|ls| - 1]) + ls[|ls| - 1]
  }

  lemma {:induction false} ConcatHasNoNewline(ls: seq<string>)
    requires forall k :: 0 <= k < |ls| ==> '\n' !in ls[k]
    ensures '\n' !in Concat(ls)
  {
    if ls != [] {
      ConcatHasNoNewline(ls[..|ls| - 1]);
    }
  }

  /** `str::split('\n')`: every piece, including an empty last one. */
  function SplitNewlines(s: string): (parts: seq<string>)
    ensures |parts| == CountNewlines(s) + 1
    decreases |s|
  {
    var i := IndexOfChar(s, '\n');
    IndexOfCharFirst(s, '\n');
    if i == |s| then
      assert '\n' !in s by {
        forall j | 0 <= j < |s| ensures s[j] != '\n' {
        }
      }
      NoNewlineCount(s);
      [s]
    else
      assert s == s[..i] + [s[i]] + s[i + 1..];
      CountNewlinesAppend(s[..i] + [s[i]], s[i + 1..]);
      CountNewlinesAppend(s[..i], [s[i]]);
      assert '\n' !in s[..i] by {
        forall j | 0 <= j < i ensures s[..i][j] != '\n' {
          assert s[..i][j] == s[j];
        }
      }
      NoNewlineCount(s[..i]);
      [s[..i]] + SplitNewlines(s[i + 1..])
  }

  /** Joins pieces with `'\n'` between them. */
  function JoinNewlines(parts: seq<string>): string
    requires |parts| > 0
  {
    if |parts| == 1 then parts[0] else parts[0] + "\n" + JoinNewlines(parts[1..])
  }

  /** Splitting on `'\n'` loses nothing: joining the pieces gives the text back. */
  lemma {:induction false} SplitJoinRoundTrip(s: string)
    ensures JoinNewlines(SplitNewlines(s)) == s
    decreases |s|
  {
    var i := IndexOfChar(s, '\n');
    if i < |s| {
      IndexOfCharFirst(s, '\n');
      var rest := SplitNewlines(s[i + 1..]);
      assert SplitNewlines(s) == [s[..i]] + rest;
      SplitJoinRoundTrip(s[i + 1..]);
      JoinCons(s[..i], rest);
      assert s == s[..i] + "\n" + s[i + 1..];
    }
  }

  lemma JoinCons(first: string, rest: seq<string>)
    requires |rest| > 0
    ensures JoinNewlines([first] + rest) == first + "\n" + JoinNewlines(rest)
  {
    assert ([first] + rest)[1..] == rest;
  }

  /** `str::trim_start`. */
  function TrimStart(s: string): (r: string)
    ensures |r| <= |s|
  {
    if s != [] && IsWhitespace(s[0]) then TrimStart(s[1..]) else s
  }

  /** `TrimStart` drops exactly the leading whitespace: what it keeps is a
      suffix that does not start with whitespace. */
  lemma {:induction false} TrimStartSpec(s: string)
    ensures var r := TrimStart(s);
      r == s[|s| - |r|..]
      && (forall i :: 0 <= i < |s| - |r| ==> IsWhitespace(s[i]))
      && (r == [] || !IsWhitespace(r[0]))
  {
    if s != [] && IsWhitespace(s[0]) {
      TrimStartSpec(s[1..]);
      var r := TrimStart(s);
      assert s[1..][|s| - 1 - |r|..] == s[|s| - |r|..];
      forall i | 1 <= i < |s| - |r| ensures IsWhitespace(s[i]) {
        assert s[i] == s[1..][i - 1];
      }
    }
  }

  /** `str::trim_end`. */
  function TrimEnd(s: string): (r: string)
    ensures |r| <= |s|
  {
    if s != [] && IsWhitespace(s[|s| - 1]) then TrimEnd(s[..|s| - 1]) else s
  }

  /** `TrimEnd` drops exactly the trailing whitespace. */
  lemma {:induction false} TrimEndSpec(s: string)
    ensures var r := TrimEnd(s);
      r == s[..|r|]
      && (forall i :: |r| <= i < |s| ==> IsWhitespace(s[i]))
      && (r == [] || !IsWhitespace(r[|r| - 1]))
  {
    if s != [] && IsWhitespace(s[|s| - 1]) {
      TrimEndSpec(s[..|s| - 1]);
      var r := TrimEnd(s);
      assert s[..|s| - 1][..|r|] == s[..|r|];
      forall i | |r| <= i < |s| - 1 ensures IsWhitespace(s[i]) {
        assert s[i] == s[..|s| - 1][i];
      }
    }
  }

  /** `str::trim`: drops leading and trailing whitespace. */
  function Trim(s: string): string {
    TrimEnd(TrimStart(s))
  }

  /** The trimmed text neither starts nor ends with whitespace, and starts
      where `TrimStart` does. */
  lemma TrimSpec(s: string)
    ensures var r := Trim(s);
      (r == [] || (!IsWhitespace(r[0]) && !IsWhitespace(r[|r| - 1])))
      && (r != [] ==> TrimStart(s) != [] && r[0] == TrimStart(s)[0])
  {
    TrimStartSpec(s);
    TrimEndSpec(TrimStart(s));
  }
}
