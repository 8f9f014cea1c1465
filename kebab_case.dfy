/** `toKebabCase` (chain_prompt.js): three chained steps with no validation:
    a hyphen between each lowercase letter and the uppercase letter after it,
    then every character outside `[a-z0-9-]` deleted, then lowercasing. Since
    the deletion runs before lowercasing, uppercase letters are deleted. */
module KebabCase {
  import opened Ascii
  import opened Text

  /** A member of the regular-expression class `[a-z0-9-]`. */
  predicate IsKebabChar(c: char) { IsLower(c) || IsDigit(c) || c == '-' }

  predicate IsKebab(s: string) {
    forall i :: 0 <= i < |s| ==> IsKebabChar(s[i])
  }

  /** A match of `([a-z])([A-Z])`. */
  predicate IsBoundary(a: char, b: char) { IsLower(a) && IsUpper(b) }

  /** The number of positions `i` with `s[i]` in `a-z` and `s[i+1]` in `A-Z`. */
  function Boundaries(s: string): nat
  {
    if |s| < 2 then 0 else (if IsBoundary(s[0], s[1]) then 1 else 0) + Boundaries(s[1..])
  }

  /** `s.replace(/([a-z])([A-Z])/g, '$1-$2')`: the global scan from the left
      consumes both characters of each match and resumes after them. */
  function InsertBoundaries(s: string): (r: string)
    ensures |r| == |s| + Boundaries(s)
  {
    if |s| >= 2 && IsBoundary(s[0], s[1]) then [s[0], '-', s[1]] + InsertBoundaries(s[2..])
    else if s == [] then []
    else [s[0]] + InsertBoundaries(s[1..])
  }

  /** The hyphen, if any, that goes between two adjacent characters. */
  function Gap(a: char, b: char): string
  {
    if IsBoundary(a, b) then "-" else ""
  }

  /** Reference for InsertBoundaries: every adjacent pair is looked at, whether or
      not a match ended on its first character. */
  function HyphenateEachPair(s: string): string
  {
    if |s| < 2 then s else [s[0]] + Gap(s[0], s[1]) + HyphenateEachPair(s[1..])
  }

  /** The scan of the regular expression misses no pair: a match ends on an
      uppercase letter, and a match must start on a lowercase one. */
  lemma {:induction false} InsertBoundariesEveryPair(s: string)
    ensures InsertBoundaries(s) == HyphenateEachPair(s)
  {
    if |s| >= 2 {
      InsertBoundariesEveryPair(s[1..]);
      if IsBoundary(s[0], s[1]) {
        InsertBoundariesEveryPair(s[2..]);
        assert s[1..][1..] == s[2..];
        if |s| >= 3 {
          assert !IsBoundary(s[1], s[2]);
        }
      }
    }
  }

  /** `s.replace(/[^a-z0-9-]/g, '')`. */
  function KeepKebabChars(s: string): (r: string)
    ensures IsKebab(r)
    ensures |r| <= |s|
  {
    if s == [] then []
    else if IsKebabChar(s[0]) then [s[0]] + KeepKebabChars(s[1..])
    else KeepKebabChars(s[1..])
  }

  /** `toKebabCase(s)`. */
  function ToKebabCase(s: string): (r: string)
    ensures |r| <= |s| + Boundaries(s)
  {
    LowerStr(KeepKebabChars(InsertBoundaries(s)))
  }

  lemma {:induction false} KebabNoUpper(s: string)
    requires IsKebab(s)
    ensures HasNoUpper(s)
  {
    forall i | 0 <= i < |s| ensures !IsUpper(s[i]) {
      assert IsKebabChar(s[i]);
    }
  }

  /** The final lowercasing has nothing left to change. */
  lemma KebabLowerIsIdentity(s: string)
    ensures ToKebabCase(s) == KeepKebabChars(InsertBoundaries(s))
  {
    var t := KeepKebabChars(InsertBoundaries(s));
    KebabNoUpper(t);
    LowerStrNoUpper(t);
  }

  /** Every character of the result is in `[a-z0-9-]`. */
  lemma KebabCaseChars(s: string)
    ensures IsKebab(ToKebabCase(s))
  {
    KebabLowerIsIdentity(s);
  }

  lemma {:induction false} KeepKebabId(s: string)
    requires IsKebab(s)
    ensures KeepKebabChars(s) == s
  {
    if s != [] {
      assert IsKebabChar(s[0]);
      KeepKebabId(s[1..]);
    }
  }

  lemma {:induction false} InsertNoUpper(s: string)
    requires HasNoUpper(s)
    ensures InsertBoundaries(s) == s
  {
    if s != [] {
      InsertNoUpper(s[1..]);
    }
  }

  /** A string made only of `[a-z0-9-]` is returned unchanged. */
  lemma KebabCaseFixesKebab(s: string)
    requires IsKebab(s)
    ensures ToKebabCase(s) == s
  {
    KebabNoUpper(s);
    InsertNoUpper(s);
    KeepKebabId(s);
    LowerStrNoUpper(s);
  }

  /** Converting twice is converting once. */
  lemma KebabCaseIdempotent(s: string)
    ensures ToKebabCase(ToKebabCase(s)) == ToKebabCase(s)
  {
    KebabCaseChars(s);
    KebabCaseFixesKebab(ToKebabCase(s));
  }

  lemma {:induction false} CountInsert(s: string)
    ensures Count('-', InsertBoundaries(s)) == Count('-', s) + Boundaries(s)
  {
    if |s| >= 2 && IsBoundary(s[0], s[1]) {
      CountInsert(s[2..]);
      assert s == [s[0], s[1]] + s[2..];
      CountAppend('-', [s[0], s[1]], s[2..]);
      CountAppend('-', [s[0], '-', s[1]], InsertBoundaries(s[2..]));
      assert s[1..][1..] == s[2..];
      if |s| >= 3 {
        assert !IsBoundary(s[1], s[2]);
      }
    } else if s != [] {
      CountInsert(s[1..]);
      CountAppend('-', [s[0]], InsertBoundaries(s[1..]));
    }
  }

  lemma {:induction false} CountKeep(s: string)
    ensures Count('-', KeepKebabChars(s)) == Count('-', s)
  {
    if s != [] {
      CountKeep(s[1..]);
      if IsKebabChar(s[0]) {
        CountAppend('-', [s[0]], KeepKebabChars(s[1..]));
      }
    }
  }

  /** The hyphens of the result are those of the input plus one per
      lowercase-uppercase pair; the deletion never removes a hyphen. */
  lemma KebabCaseHyphens(s: string)
    ensures Count('-', ToKebabCase(s)) == Count('-', s) + Boundaries(s)
  {
    KebabLowerIsIdentity(s);
    CountKeep(InsertBoundaries(s));
    CountInsert(s);
  }

  /** `s` reduced to its lowercase letters and digits. */
  function LettersAndDigits(s: string): (r: string)
    ensures |r| <= |s|
  {
    if s == [] then []
    else if IsLower(s[0]) || IsDigit(s[0]) then [s[0]] + LettersAndDigits(s[1..])
    else LettersAndDigits(s[1..])
  }

  lemma {:induction false} LettersAndDigitsAppend(a: string, b: string)
    ensures LettersAndDigits(a + b) == LettersAndDigits(a) + LettersAndDigits(b)
  {
    if a == [] {
      assert a + b == b;
    } else {
      assert (a + b)[1..] == a[1..] + b;
      LettersAndDigitsAppend(a[1..], b);
    }
  }

  /** The insertion keeps every lowercase letter and digit, in order. */
  lemma {:induction false} LettersAndDigitsInsert(s: string)
    ensures LettersAndDigits(InsertBoundaries(s)) == LettersAndDigits(s)
  {
    if |s| >= 2 && IsBoundary(s[0], s[1]) {
      LettersAndDigitsInsert(s[2..]);
      assert s == [s[0], s[1]] + s[2..];
      LettersAndDigitsAppend([s[0], s[1]], s[2..]);
      LettersAndDigitsAppend([s[0], '-', s[1]], InsertBoundaries(s[2..]));
    } else if s != [] {
      LettersAndDigitsInsert(s[1..]);
      LettersAndDigitsAppend([s[0]], InsertBoundaries(s[1..]));
    }
  }

  /** `s` with every `-` removed. */
  function NoHyphens(s: string): (r: string)
    ensures |r| <= |s|
    ensures forall i :: 0 <= i < |r| ==> r[i] != '-'
  {
    if s == [] then []
    else if s[0] == '-' then NoHyphens(s[1..])
    else [s[0]] + NoHyphens(s[1..])
  }

  lemma {:induction false} NoHyphensAppend(a: string, b: string)
    ensures NoHyphens(a + b) == NoHyphens(a) + NoHyphens(b)
  {
    if a == [] {
      assert a + b == b;
    } else {
      assert (a + b)[1..] == a[1..] + b;
      NoHyphensAppend(a[1..], b);
    }
  }

  /** The insertion adds hyphens and nothing else: with hyphens removed, the
      result is the input with hyphens removed, uppercase letters and every
      other character included, in order. */
  lemma {:induction false} InsertOnlyHyphens(s: string)
    ensures NoHyphens(InsertBoundaries(s)) == NoHyphens(s)
  {
    if |s| >= 2 && IsBoundary(s[0], s[1]) {
      InsertOnlyHyphens(s[2..]);
      assert s == [s[0], s[1]] + s[2..];
      NoHyphensAppend([s[0], s[1]], s[2..]);
      NoHyphensAppend([s[0], '-', s[1]], InsertBoundaries(s[2..]));
    } else if s != [] {
      InsertOnlyHyphens(s[1..]);
      NoHyphensAppend([s[0]], InsertBoundaries(s[1..]));
    }
  }

  lemma {:induction false} LettersAndDigitsKeep(s: string)
    ensures LettersAndDigits(KeepKebabChars(s)) == LettersAndDigits(s)
  {
    if s != [] {
      LettersAndDigitsKeep(s[1..]);
      if IsKebabChar(s[0]) {
        LettersAndDigitsAppend([s[0]], KeepKebabChars(s[1..]));
      }
    }
  }

  /** Apart from hyphens, the result is exactly the input's lowercase letters and
      digits, in order: uppercase letters are deleted, not lowercased. */
  lemma KebabCaseDeletesUpper(s: string)
    ensures LettersAndDigits(ToKebabCase(s)) == LettersAndDigits(s)
  {
    KebabLowerIsIdentity(s);
    LettersAndDigitsKeep(InsertBoundaries(s));
    LettersAndDigitsInsert(s);
  }

  lemma HyphenateConsAppend(l: string, r: string)
    requires |l| > 1
    ensures HyphenateEachPair(l + r) == [l[0]] + Gap(l[0], l[1]) + HyphenateEachPair(l[1..] + r)
  {
    var s := l + r;
    assert s[0] == l[0] && s[1] == l[1] && s[1..] == l[1..] + r;
  }

  /** Hyphenating each pair works piece by piece: the pair that straddles the cut
      contributes its gap between the two pieces. */
  lemma {:induction false} HyphenateSplit(l: string, r: string)
    requires |l| > 0 && |r| > 0
    ensures HyphenateEachPair(l + r) == HyphenateEachPair(l) + Gap(l[|l| - 1], r[0]) + HyphenateEachPair(r)
    decreases |l|
  {
    if |l| == 1 {
      var s := l + r;
      assert s[0] == l[0] && s[1] == r[0] && s[1..] == r;
    } else {
      var l', g, hr := l[1..], Gap(l[|l| - 1], r[0]), HyphenateEachPair(r);
      assert l'[|l'| - 1] == l[|l| - 1];
      HyphenateSplit(l', r);
      HyphenateConsAppend(l, r);
      var head, rest := [l[0]] + Gap(l[0], l[1]), HyphenateEachPair(l');
      assert HyphenateEachPair(l) == head + rest;
      AppendAssoc(rest, g, hr);
      AppendAssoc(head, rest, g + hr);
      AppendAssoc(head + rest, g, hr);
    }
  }

  lemma {:induction false} KeepAppend(a: string, b: string)
    ensures KeepKebabChars(a + b) == KeepKebabChars(a) + KeepKebabChars(b)
  {
    if a == [] {
      assert a + b == b;
    } else {
      assert (a + b)[1..] == a[1..] + b;
      KeepAppend(a[1..], b);
    }
  }

  /** The conversion works piece by piece: cutting the input between two
      characters cuts the result at the same place, with the hyphen that the
      two characters call for in between. */
  lemma KebabCaseSplit(l: string, r: string)
    requires |l| > 0 && |r| > 0
    ensures ToKebabCase(l + r) == ToKebabCase(l) + Gap(l[|l| - 1], r[0]) + ToKebabCase(r)
  {
    var g := Gap(l[|l| - 1], r[0]);
    InsertBoundariesEveryPair(l + r);
    InsertBoundariesEveryPair(l);
    InsertBoundariesEveryPair(r);
    HyphenateSplit(l, r);
    KeepAppend(InsertBoundaries(l) + g, InsertBoundaries(r));
    KeepAppend(InsertBoundaries(l), g);
    assert KeepKebabChars(g) == g;
    KebabLowerIsIdentity(l + r);
    KebabLowerIsIdentity(l);
    KebabLowerIsIdentity(r);
  }

  // ---------------------------------------------------------------------------
  // The evidently intended order of the last two steps

  /** toKebabCase with the lowercasing moved before the deletion, so that an
      uppercase letter is lowercased instead of deleted. */
  function ToKebabCaseLowerFirst(s: string): (r: string)
    ensures IsKebab(r)
  {
    KeepKebabChars(LowerStr(InsertBoundaries(s)))
  }

  lemma {:induction false} LettersAndDigitsLowerInsert(s: string)
    ensures LettersAndDigits(LowerStr(InsertBoundaries(s))) == LettersAndDigits(LowerStr(s))
  {
    if |s| >= 2 && IsBoundary(s[0], s[1]) {
      LettersAndDigitsLowerInsert(s[2..]);
      assert s == [s[0], s[1]] + s[2..];
      LowerStrAppend([s[0], s[1]], s[2..]);
      LowerStrAppend([s[0], '-', s[1]], InsertBoundaries(s[2..]));
      LettersAndDigitsAppend(LowerStr([s[0], s[1]]), LowerStr(s[2..]));
      LettersAndDigitsAppend(LowerStr([s[0], '-', s[1]]), LowerStr(InsertBoundaries(s[2..])));
    } else if s != [] {
      LettersAndDigitsLowerInsert(s[1..]);
      assert s == [s[0]] + s[1..];
      LowerStrAppend([s[0]], s[1..]);
      LowerStrAppend([s[0]], InsertBoundaries(s[1..]));
      LettersAndDigitsAppend(LowerStr([s[0]]), LowerStr(s[1..]));
      LettersAndDigitsAppend(LowerStr([s[0]]), LowerStr(InsertBoundaries(s[1..])));
    }
  }

  /** Apart from hyphens, the intended result is the input's letters and digits,
      in order, every letter lowercased: no letter is lost. */
  lemma KebabCaseLowerFirstKeepsLetters(s: string)
    ensures LettersAndDigits(ToKebabCaseLowerFirst(s)) == LettersAndDigits(LowerStr(s))
  {
    LettersAndDigitsKeep(LowerStr(InsertBoundaries(s)));
    LettersAndDigitsLowerInsert(s);
  }
}
