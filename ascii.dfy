/** ASCII character classes and the ASCII part of JavaScript's case mapping.
    Characters outside 'A'..'Z' and 'a'..'z' are never changed by case mapping here. */
module Ascii {

  predicate IsLower(c: char) { 'a' <= c <= 'z' }

  predicate IsUpper(c: char) { 'A' <= c <= 'Z' }

  /** The class `\d` of a regular expression without the `u` flag. */
  predicate IsDigit(c: char) { '0' <= c <= '9' }

  predicate HasNoUpper(s: string) {
    forall i :: 0 <= i < |s| ==> !IsUpper(s[i])
  }

  /** `String.prototype.toLowerCase` on one character. */
  function ToLower(c: char): (r: char)
    ensures !IsUpper(r)
    ensures IsLower(r) <==> IsLower(c) || IsUpper(c)
    ensures IsUpper(c) ==> r as int - c as int == 'a' as int - 'A' as int
    ensures !IsUpper(c) ==> r == c
  {
    if IsUpper(c) then (c as int + ('a' as int - 'A' as int)) as char else c
  }

  /** `String.prototype.toUpperCase` on one character. */
  function ToUpper(c: char): (r: char)
    ensures !IsLower(r)
    ensures IsUpper(r) <==> IsLower(c) || IsUpper(c)
    ensures IsLower(c) ==> c as int - r as int == 'a' as int - 'A' as int
    ensures !IsLower(c) ==> r == c
  {
    if IsLower(c) then (c as int - ('a' as int - 'A' as int)) as char else c
  }

  /** `String.prototype.toLowerCase`. */
  function LowerStr(s: string): (r: string)
    ensures |r| == |s|
  {
    if s == [] then [] else [ToLower(s[0])] + LowerStr(s[1..])
  }

  /** Lowercasing works character by character, so its result has no uppercase letter. */
  lemma {:induction false} LowerStrAt(s: string)
    ensures forall i :: 0 <= i < |s| ==> LowerStr(s)[i] == ToLower(s[i])
    ensures HasNoUpper(LowerStr(s))
  {
    if s != [] {
      LowerStrAt(s[1..]);
      assert forall i :: 1 <= i < |s| ==> LowerStr(s)[i] == LowerStr(s[1..])[i - 1];
    }
  }

  /** Conversely, a string that agrees with the lowercase of every character of
      `s` is the lowercase of `s`. */
  lemma LowerStrChars(s: string, t: string)
    requires |s| == |t| && forall i :: 0 <= i < |s| ==> ToLower(s[i]) == t[i]
    ensures LowerStr(s) == t
  {
    LowerStrAt(s);
  }

  lemma {:induction false} LowerStrAppend(a: string, b: string)
    ensures LowerStr(a + b) == LowerStr(a) + LowerStr(b)
  {
    if a == [] {
      assert a + b == b;
    } else {
      assert (a + b)[1..] == a[1..] + b;
      LowerStrAppend(a[1..], b);
    }
  }

  /** Lowercasing a string with no uppercase letter changes nothing. */
  lemma {:induction false} LowerStrNoUpper(s: string)
    requires HasNoUpper(s)
    ensures LowerStr(s) == s
  {
    if s != [] {
      LowerStrNoUpper(s[1..]);
    }
  }
}
