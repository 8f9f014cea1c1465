/** `toDotCase` (refined_prompt.js): validate, turn each run of `-`/`_` into one
    `.`, and lowercase the whole string. Spaces are kept, and no boundary is
    inserted between a lowercase and an uppercase letter. */
module DotCase {
  import opened Ascii
  import opened Text
  import opened Validation

  /** `toDotCase(s)`. */
  function ToDotCase(s: string): (r: Result<string>)
    ensures r.Err? <==> Rejected(s)
    ensures r.Err? ==> r.error == StartsWithDigitOrNA
  {
    if Rejected(s) then Err(StartsWithDigitOrNA)
    else Ok(LowerStr(CollapseDelimiters(s, '.')))
  }

  /** Each maximal run of delimiters becomes exactly one `.`, and every other
      character is kept in place, lowercased. */
  lemma DotCaseIsRuns(s: string)
    requires !Rejected(s)
    ensures ToDotCase(s) == Ok(LowerStr(CollapseRuns(false, s, '.')))
  {
    CollapseIsRuns(s, '.');
  }

  /** The result has no delimiter and no uppercase letter, and is never longer
      than the input. */
  lemma DotCaseShape(s: string)
    requires !Rejected(s)
    ensures ToDotCase(s).Ok?
    ensures HasNoDelimiter(ToDotCase(s).value) && HasNoUpper(ToDotCase(s).value)
    ensures |ToDotCase(s).value| <= |s|
  {
    var c := CollapseDelimiters(s, '.');
    var r := LowerStr(c);
    LowerStrAt(c);
    forall i | 0 <= i < |r| ensures !IsDelimiter(r[i]) {
      assert !IsDelimiter(c[i]);
    }
  }

  lemma {:induction false} OthersLower(s: string)
    ensures Others(LowerStr(s), '.') == LowerStr(Others(s, '.'))
  {
    if s != [] {
      OthersLower(s[1..]);
      assert LowerStr(s)[1..] == LowerStr(s[1..]);
      if !(IsDelimiter(s[0]) || s[0] == '.') {
        LowerStrAppend([s[0]], Others(s[1..], '.'));
      }
    }
  }

  /** Apart from the dots, the result is the input's non-delimiter characters,
      in order, lowercased. */
  lemma DotCaseKeepsOthers(s: string)
    requires !Rejected(s)
    ensures Others(ToDotCase(s).value, '.') == LowerStr(Others(s, '.'))
  {
    var c := CollapseDelimiters(s, '.');
    OthersLower(c);
    CollapseKeepsOthers(s, '.');
  }

  /** An accepted result is accepted again and converts to itself. */
  lemma DotCaseIdempotent(s: string)
    requires !Rejected(s)
    ensures !Rejected(ToDotCase(s).value)
    ensures ToDotCase(ToDotCase(s).value) == ToDotCase(s)
  {
    DotCaseShape(s);
    var c := CollapseDelimiters(s, '.');
    var r := LowerStr(c);
    LowerStrAt(c);
    if |s| > 0 {
      assert c[0] == if IsDelimiter(s[0]) then '.' else s[0];
      assert !IsDigit(r[0]);
    }
    SentinelHasUpper(r);
    CollapseNoDelimiter(r, '.');
    LowerStrNoUpper(r);
  }

  /** The conversion of `a + b` is that of `a` followed by that of `b`, where a
      delimiter run that `a` leaves open goes on into `b`. */
  lemma DotCaseAppend(a: string, b: string)
    requires !Rejected(a + b)
    ensures ToDotCase(a + b)
         == Ok(LowerStr(CollapseRuns(false, a, '.')) + LowerStr(CollapseRuns(InRunAfter(false, a), b, '.')))
  {
    DotCaseIsRuns(a + b);
    CollapseRunsAppend(false, a, b, '.');
    LowerStrAppend(CollapseRuns(false, a, '.'), CollapseRuns(InRunAfter(false, a), b, '.'));
  }

  /** A string without delimiters is only lowercased. */
  lemma DotCaseOneWord(u: string)
    requires !Rejected(u) && HasNoDelimiter(u)
    ensures ToDotCase(u) == Ok(LowerStr(u))
  {
    CollapseNoDelimiter(u, '.');
  }

  /** Two words joined by one delimiter come out lowercased and joined by a dot. */
  lemma DotCaseTwoWords(u: string, x: char, w: string)
    requires !Rejected(u + [x] + w) && IsDelimiter(x) && HasNoDelimiter(u) && HasNoDelimiter(w)
    ensures ToDotCase(u + [x] + w) == Ok(LowerStr(u) + "." + LowerStr(w))
  {
    var s, tail := u + [x] + w, [x] + w;
    assert s == u + tail;
    assert tail[0] == x && tail[1..] == w;
    CollapseRunsNoDelimiter(false, u, '.');
    CollapseRunsNoDelimiter(true, w, '.');
    assert CollapseRuns(false, tail, '.') == "." + w;
    CollapseRunsAppend(false, u, tail, '.');
    assert CollapseRuns(false, s, '.') == u + ("." + w);
    DotCaseIsRuns(s);
    LowerStrAppend(u, "." + w);
    LowerStrAppend(".", w);
    assert LowerStr(".") == ".";
    var r := LowerStr(u) + ("." + LowerStr(w));
    assert ToDotCase(s) == Ok(r);
    AppendAssoc(LowerStr(u), ".", LowerStr(w));
  }

  lemma DotCaseEmpty()
    ensures ToDotCase("") == Ok("")
  {
  }
}
