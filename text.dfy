/** The JavaScript string primitives the converters chain together:
    `replace(/[-_]+/g, rep)`, `split(' ')` and `join('')`. */
module Text {

  /** A member of the regular-expression class `[-_]`. */
  predicate IsDelimiter(c: char) { c == '-' || c == '_' }

  predicate HasNoDelimiter(s: string) {
    forall i :: 0 <= i < |s| ==> !IsDelimiter(s[i])
  }

  lemma AppendAssoc(a: string, b: string, c: string)
    ensures a + (b + c) == a + b + c
  {
  }

  /** Occurrences of `c` in `s`. */
  function Count(c: char, s: string): (n: nat)
    ensures n <= |s|
  {
    if s == [] then 0 else (if s[0] == c then 1 else 0) + Count(c, s[1..])
  }

  lemma {:induction false} CountAppend(c: char, a: string, b: string)
    ensures Count(c, a + b) == Count(c, a) + Count(c, b)
  {
    if a == [] {
      assert a + b == b;
    } else {
      assert (a + b)[1..] == a[1..] + b;
      CountAppend(c, a[1..], b);
    }
  }

  /** What the greedy `[-_]+` consumes at the front of `s`: `s` with its leading
      delimiters removed. */
  function DropDelimiters(s: string): (r: string)
    ensures |r| <= |s| && r == s[|s| - |r|..]
    ensures r == [] || !IsDelimiter(r[0])
    ensures forall i :: 0 <= i < |s| - |r| ==> IsDelimiter(s[i])
  {
    if s != [] && IsDelimiter(s[0]) then DropDelimiters(s[1..]) else s
  }

  /** `s.replace(/[-_]+/g, rep)`: the global scan from the left replaces each
      maximal run of delimiters by the single character `rep`. */
  function CollapseDelimiters(s: string, rep: char): (r: string)
    ensures |r| <= |s|
    ensures !IsDelimiter(rep) ==> HasNoDelimiter(r)
    decreases |s|
  {
    if s == [] then []
    else
      var c, rest := if IsDelimiter(s[0]) then rep else s[0],
                     if IsDelimiter(s[0]) then DropDelimiters(s[1..]) else s[1..];
      var t := CollapseDelimiters(rest, rep);
      assert forall i :: 0 < i <= |t| ==> ([c] + t)[i] == t[i - 1];
      [c] + t
  }

  /** Reference for CollapseDelimiters, one character at a time: a delimiter
      that opens a run (none before it, `inRun` false) becomes `rep`, a delimiter
      that continues a run vanishes, and every other character is kept. */
  function CollapseRuns(inRun: bool, s: string, rep: char): string
    decreases |s|
  {
    if s == [] then []
    else if IsDelimiter(s[0]) then (if inRun then [] else [rep]) + CollapseRuns(true, s[1..], rep)
    else [s[0]] + CollapseRuns(false, s[1..], rep)
  }

  lemma {:induction false} CollapseRunsSkip(s: string, rep: char)
    ensures CollapseRuns(true, s, rep) == CollapseRuns(false, DropDelimiters(s), rep)
  {
    if s != [] && IsDelimiter(s[0]) {
      CollapseRunsSkip(s[1..], rep);
    }
  }

  /** Every run of delimiters becomes exactly one `rep`: the regular-expression
      replacement agrees with the one-character-at-a-time reference. */
  lemma {:induction false} CollapseIsRuns(s: string, rep: char)
    ensures CollapseDelimiters(s, rep) == CollapseRuns(false, s, rep)
    decreases |s|
  {
    if s == [] {
    } else if IsDelimiter(s[0]) {
      CollapseRunsSkip(s[1..], rep);
      CollapseIsRuns(DropDelimiters(s[1..]), rep);
    } else {
      CollapseIsRuns(s[1..], rep);
    }
  }

  /** Whether a run of delimiters is open at the end of `a`, read from `inRun`. */
  function InRunAfter(inRun: bool, a: string): bool
    decreases |a|
  {
    if a == [] then inRun else InRunAfter(IsDelimiter(a[0]), a[1..])
  }

  lemma {:induction false} CollapseRunsAppend(inRun: bool, a: string, b: string, rep: char)
    ensures CollapseRuns(inRun, a + b, rep)
         == CollapseRuns(inRun, a, rep) + CollapseRuns(InRunAfter(inRun, a), b, rep)
    decreases |a|
  {
    if a == [] {
      assert a + b == b;
    } else {
      assert (a + b)[1..] == a[1..] + b;
      var next := IsDelimiter(a[0]);
      CollapseRunsAppend(next, a[1..], b, rep);
    }
  }

  /** Without delimiters there is no run to collapse, and none is open at the end. */
  lemma {:induction false} CollapseRunsNoDelimiter(inRun: bool, s: string, rep: char)
    requires HasNoDelimiter(s)
    ensures CollapseRuns(inRun, s, rep) == s
    ensures InRunAfter(inRun, s) == (inRun && s == [])
    decreases |s|
  {
    if s != [] {
      CollapseRunsNoDelimiter(false, s[1..], rep);
    }
  }

  /** A string without delimiters is left unchanged by the replacement. */
  lemma {:induction false} CollapseNoDelimiter(s: string, rep: char)
    requires HasNoDelimiter(s)
    ensures CollapseDelimiters(s, rep) == s
  {
    if s != [] {
      CollapseNoDelimiter(s[1..], rep);
    }
  }

  /** `s` with every delimiter and every `rep` removed. */
  function Others(s: string, rep: char): (r: string)
    ensures |r| <= |s|
  {
    if s == [] then []
    else if IsDelimiter(s[0]) || s[0] == rep then Others(s[1..], rep)
    else [s[0]] + Others(s[1..], rep)
  }

  lemma {:induction false} OthersDropDelimiters(s: string, rep: char)
    ensures Others(DropDelimiters(s), rep) == Others(s, rep)
  {
    if s != [] && IsDelimiter(s[0]) {
      OthersDropDelimiters(s[1..], rep);
    }
  }

  /** The replacement keeps every character that is neither a delimiter nor
      `rep`, in order. */
  lemma {:induction false} CollapseKeepsOthers(s: string, rep: char)
    ensures Others(CollapseDelimiters(s, rep), rep) == Others(s, rep)
    decreases |s|
  {
    if s == [] {
    } else if IsDelimiter(s[0]) {
      OthersDropDelimiters(s[1..], rep);
      CollapseKeepsOthers(DropDelimiters(s[1..]), rep);
    } else {
      CollapseKeepsOthers(s[1..], rep);
    }
  }

  /** `s.split(' ')`: the pieces between spaces, empty pieces included, so
      `"".split(' ')` is `[""]`. */
  function Split(s: string): (r: seq<string>)
    ensures |r| == Count(' ', s) + 1
    ensures forall k :: 0 <= k < |r| ==> ' ' !in r[k]
  {
    if s == [] then [[]]
    else
      var rest := Split(s[1..]);
      if s[0] == ' ' then [[]] + rest else [[s[0]] + rest[0]] + rest[1..]
  }

  /** `ws.join(sep)`. The converters only join with `''` (Concat below); this
      one exists to state, in SplitJoin, that Split loses nothing. */
  function JoinWith(ws: seq<string>, sep: char): string
  {
    if ws == [] then [] else if |ws| == 1 then ws[0] else ws[0] + [sep] + JoinWith(ws[1..], sep)
  }

  /** Splitting on spaces and joining with spaces gives the string back. */
  lemma {:induction false} SplitJoin(s: string)
    ensures JoinWith(Split(s), ' ') == s
  {
    if s != [] {
      SplitJoin(s[1..]);
      var rest := Split(s[1..]);
      if s[0] == ' ' {
        assert ([[]] + rest)[1..] == rest;
      } else {
        var ws := [[s[0]] + rest[0]] + rest[1..];
        assert ws[1..] == rest[1..];
        if |rest| > 1 {
          assert rest == [rest[0]] + rest[1..];
        }
      }
    }
  }

  /** `ws.join('')`. */
  function Concat(ws: seq<string>): (r: string)
  {
    if ws == [] then [] else ws[0] + Concat(ws[1..])
  }
}
