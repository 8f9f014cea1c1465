/** `toCamelCase` (refined_prompt.js): validate, turn each run of `-`/`_` into one
    space, split on spaces, lowercase the first word, capitalize every later word,
    and join without a separator. */
module CamelCase {
  import opened Ascii
  import opened Text
  import opened Validation

  /** A character that ends a word: a delimiter, or the space the delimiters become. */
  predicate IsSeparator(c: char) { IsDelimiter(c) || c == ' ' }

  predicate HasNoSeparator(s: string) {
    forall i :: 0 <= i < |s| ==> !IsSeparator(s[i])
  }

  /** `word.charAt(0).toUpperCase() + word.slice(1).toLowerCase()`; `charAt(0)`
      of the empty word is the empty string. */
  function Capitalize(w: string): (r: string)
    ensures |r| == |w|
  {
    if w == [] then [] else [ToUpper(w[0])] + LowerStr(w[1..])
  }

  /** What capitalizing does to each character: the first one is uppercased,
      every later one lowercased. */
  lemma CapitalizeAt(w: string)
    ensures |w| > 0 ==> Capitalize(w)[0] == ToUpper(w[0])
    ensures forall i :: 1 <= i < |w| ==> Capitalize(w)[i] == ToLower(w[i])
  {
    if w != [] {
      LowerStrAt(w[1..]);
    }
  }

  /** The converse of CapitalizeAt: a string with those characters is the
      capitalized word. */
  lemma CapitalizeChars(w: string, t: string)
    requires |w| == |t|
    requires |w| > 0 ==> ToUpper(w[0]) == t[0]
    requires forall i :: 1 <= i < |w| ==> ToLower(w[i]) == t[i]
    ensures Capitalize(w) == t
  {
    if w != [] {
      LowerStrChars(w[1..], t[1..]);
    }
  }

  /** The callback of `.map((word, index) => ...)`. */
  function CamelWord(w: string, index: nat): string
  {
    if index == 0 then LowerStr(w) else Capitalize(w)
  }

  /** `ws.map(CamelWord)`: the word at index 0 is lowercased, every other word
      is capitalized. */
  function CamelWords(ws: seq<string>): (r: seq<string>)
    ensures |r| == |ws|
  {
    seq(|ws|, i requires 0 <= i < |ws| => CamelWord(ws[i], i))
  }

  /** `toCamelCase(s)`. */
  function ToCamelCase(s: string): (r: Result<string>)
    ensures r.Err? <==> Rejected(s)
    ensures r.Err? ==> r.error == StartsWithDigitOrNA
  {
    if Rejected(s) then Err(StartsWithDigitOrNA)
    else Ok(Concat(CamelWords(Split(CollapseDelimiters(s, ' ')))))
  }

  // ---------------------------------------------------------------------------
  // A one-pass reference for the whole conversion

  /** camelCase read one character at a time: separators are dropped, the
      character right after a separator is uppercased, and every other
      character is lowercased. `afterSep` says whether the character before `s`
      was a separator. */
  function CamelScan(afterSep: bool, s: string): (r: string)
    ensures |r| <= |s|
    ensures HasNoSeparator(r)
    decreases |s|
  {
    if s == [] then []
    else if IsSeparator(s[0]) then CamelScan(true, s[1..])
    else [if afterSep then ToUpper(s[0]) else ToLower(s[0])] + CamelScan(false, s[1..])
  }

  /** Whether the character before the rest of the input is a separator, once
      `a` has been read starting from `afterSep`. */
  function AfterSepFrom(afterSep: bool, a: string): bool
  {
    if a == [] then afterSep else IsSeparator(a[|a| - 1])
  }

  lemma {:induction false} CamelScanAppend(afterSep: bool, a: string, b: string)
    ensures CamelScan(afterSep, a + b) == CamelScan(afterSep, a) + CamelScan(AfterSepFrom(afterSep, a), b)
    decreases |a|
  {
    if a == [] {
      assert a + b == b;
    } else {
      assert (a + b)[1..] == a[1..] + b;
      var next := IsSeparator(a[0]);
      CamelScanAppend(next, a[1..], b);
      assert AfterSepFrom(next, a[1..]) == AfterSepFrom(afterSep, a);
    }
  }

  /** On a single word the scan lowercases it, or capitalizes it after a separator. */
  lemma {:induction false} CamelScanWord(w: string)
    requires HasNoSeparator(w)
    ensures CamelScan(false, w) == LowerStr(w)
    ensures CamelScan(true, w) == Capitalize(w)
  {
    if w != [] {
      CamelScanWord(w[1..]);
    }
  }

  lemma {:induction false} CamelScanSkipDelimiters(s: string)
    ensures CamelScan(true, s) == CamelScan(true, DropDelimiters(s))
  {
    if s != [] && IsDelimiter(s[0]) {
      CamelScanSkipDelimiters(s[1..]);
    }
  }

  /** Turning delimiter runs into spaces does not change what the scan sees. */
  lemma {:induction false} CamelScanCollapse(afterSep: bool, s: string)
    ensures CamelScan(afterSep, CollapseDelimiters(s, ' ')) == CamelScan(afterSep, s)
    decreases |s|
  {
    if s == [] {
    } else if IsDelimiter(s[0]) {
      var rest := DropDelimiters(s[1..]);
      assert ([' '] + CollapseDelimiters(rest, ' '))[1..] == CollapseDelimiters(rest, ' ');
      CamelScanCollapse(true, rest);
      CamelScanSkipDelimiters(s[1..]);
    } else {
      assert ([s[0]] + CollapseDelimiters(s[1..], ' '))[1..] == CollapseDelimiters(s[1..], ' ');
      CamelScanCollapse(false, s[1..]);
      CamelScanCollapse(true, s[1..]);
    }
  }

  /** Words after the first, each capitalized. */
  function Capitalized(ws: seq<string>): (r: seq<string>)
    ensures |r| == |ws|
  {
    seq(|ws|, i requires 0 <= i < |ws| => Capitalize(ws[i]))
  }

  lemma ConcatCons(w: string, ws: seq<string>)
    ensures Concat([w] + ws) == w + Concat(ws)
  {
    assert ([w] + ws)[1..] == ws;
  }

  lemma CamelWordsCons(ws: seq<string>)
    requires |ws| > 0
    ensures CamelWords(ws) == [LowerStr(ws[0])] + Capitalized(ws[1..])
  {
  }

  lemma CapitalizedCons(ws: seq<string>)
    requires |ws| > 0
    ensures Capitalized(ws) == [Capitalize(ws[0])] + Capitalized(ws[1..])
  {
  }

  /** Split followed by the per-word case mapping and the join is the scan, on a
      string whose only separators are spaces. */
  lemma {:induction false} WordsAreScan(afterSep: bool, t: string)
    requires HasNoDelimiter(t)
    decreases |t|
    ensures CamelWord(Split(t)[0], if afterSep then 1 else 0) + Concat(Capitalized(Split(t)[1..]))
         == CamelScan(afterSep, t)
  {
    var index := if afterSep then 1 else 0;
    if t == [] {
    } else {
      var rest := Split(t[1..]);
      WordsAreScan(t[0] == ' ', t[1..]);
      if t[0] == ' ' {
        assert Split(t)[0] == [] && Split(t)[1..] == rest;
        CapitalizedCons(rest);
        ConcatCons(Capitalize(rest[0]), Capitalized(rest[1..]));
      } else {
        var c := t[0];
        assert Split(t)[0] == [c] + rest[0] && Split(t)[1..] == rest[1..];
        assert ([c] + rest[0])[1..] == rest[0];
        var first := [if afterSep then ToUpper(c) else ToLower(c)];
        assert CamelWord([c] + rest[0], index) == first + LowerStr(rest[0]);
        AppendAssoc(first, LowerStr(rest[0]), Concat(Capitalized(rest[1..])));
      }
    }
  }

  // ---------------------------------------------------------------------------
  // What toCamelCase computes

  /** An accepted input converts to its one-pass reading. */
  lemma CamelCaseIsScan(s: string)
    requires !Rejected(s)
    ensures ToCamelCase(s) == Ok(CamelScan(false, s))
  {
    var t := CollapseDelimiters(s, ' ');
    var ws := Split(t);
    CamelWordsCons(ws);
    ConcatCons(LowerStr(ws[0]), Capitalized(ws[1..]));
    WordsAreScan(false, t);
    CamelScanCollapse(false, s);
  }

  /** The result holds no `-`, `_` or space and is never longer than the input. */
  lemma CamelCaseShape(s: string)
    requires !Rejected(s)
    ensures ToCamelCase(s).Ok?
    ensures HasNoSeparator(ToCamelCase(s).value)
    ensures |ToCamelCase(s).value| <= |s|
  {
    CamelCaseIsScan(s);
  }

  /** The first word of the input, up to the first separator, comes out lowercased. */
  lemma CamelCaseFirstWord(s: string, w: string, v: string)
    requires !Rejected(s) && s == w + v && HasNoSeparator(w)
    ensures ToCamelCase(s) == Ok(LowerStr(w) + CamelScan(false, v))
  {
    CamelCaseIsScan(s);
    CamelScanAppend(false, w, v);
    CamelScanWord(w);
  }

  lemma CamelScanLaterWord(u: string, x: char, w: string, v: string)
    requires IsSeparator(x) && HasNoSeparator(w)
    ensures CamelScan(false, u + [x] + w + v) == CamelScan(false, u) + Capitalize(w) + CamelScan(w == [], v)
  {
    var tail := [x] + w + v;
    assert u + [x] + w + v == u + tail;
    assert tail[0] == x && tail[1..] == w + v;
    var head, word, rest := CamelScan(false, u), Capitalize(w), CamelScan(w == [], v);
    CamelScanAppend(false, u, tail);
    assert CamelScan(AfterSepFrom(false, u), tail) == CamelScan(true, w + v);
    CamelScanWord(w);
    assert w != [] ==> !IsSeparator(w[|w| - 1]);
    assert AfterSepFrom(true, w) == (w == []);
    CamelScanAppend(true, w, v);
    assert CamelScan(true, w + v) == word + rest;
    assert CamelScan(false, u + tail) == head + (word + rest);
    AppendAssoc(head, word, rest);
  }

  /** A word that follows a separator comes out capitalized: first character
      uppercased, the rest lowercased. */
  lemma CamelCaseLaterWord(s: string, u: string, x: char, w: string, v: string)
    requires !Rejected(s) && s == u + [x] + w + v && IsSeparator(x) && HasNoSeparator(w)
    ensures ToCamelCase(s) == Ok(CamelScan(false, u) + Capitalize(w) + CamelScan(w == [], v))
  {
    CamelCaseIsScan(s);
    CamelScanLaterWord(u, x, w, v);
  }

  /** Converting an accepted result again lowercases it entirely. */
  lemma CamelCaseTwice(s: string)
    requires !Rejected(s)
    requires !Rejected(ToCamelCase(s).value)
    ensures ToCamelCase(ToCamelCase(s).value) == Ok(LowerStr(ToCamelCase(s).value))
  {
    CamelCaseIsScan(s);
    var r := ToCamelCase(s).value;
    CamelCaseIsScan(r);
    CamelScanWord(r);
  }

  lemma CamelCaseEmpty()
    ensures ToCamelCase("") == Ok("")
  {
    CamelCaseIsScan("");
  }

  /** A string without separators is only lowercased. */
  lemma CamelCaseOneWord(u: string)
    requires !Rejected(u) && HasNoSeparator(u)
    ensures ToCamelCase(u) == Ok(LowerStr(u))
  {
    CamelCaseIsScan(u);
    CamelScanWord(u);
  }

  /** Two words joined by one separator: the first lowercased, the second
      capitalized, with nothing between them. */
  lemma CamelCaseTwoWords(u: string, x: char, w: string)
    requires !Rejected(u + [x] + w) && IsSeparator(x) && HasNoSeparator(u) && HasNoSeparator(w)
    ensures ToCamelCase(u + [x] + w) == Ok(LowerStr(u) + Capitalize(w))
  {
    var s := u + [x] + w;
    assert s == u + [x] + w + [];
    CamelCaseLaterWord(s, u, x, w, []);
    CamelScanWord(u);
    assert LowerStr(u) + Capitalize(w) + [] == LowerStr(u) + Capitalize(w);
  }
}
