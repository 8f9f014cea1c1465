/** The guard shared by toCamelCase and toDotCase, and their result type. */
module Validation {
  import opened Ascii

  /** The two messages the converters throw: "Input must be a string." for a
      non-string argument, which a `string` parameter cannot be, and the
      leading-digit or "NA" rejection. */
  datatype InputError = NotAString | StartsWithDigitOrNA

  datatype Result<T> = Ok(value: T) | Err(error: InputError)

  /** The placeholder value both converters refuse, compared exactly. */
  const Sentinel: string := "NA"

  /** `/^\d/.test(s) || s === 'NA'`, evaluated on the untransformed input. */
  predicate Rejected(s: string) {
    (|s| > 0 && IsDigit(s[0])) || s == Sentinel
  }

  /** The guard compares exactly: other spellings of the sentinel pass, and so
      does the empty string. */
  lemma RejectedExamples()
    ensures Rejected("5cats") && Rejected("NA") && Rejected("0")
    ensures !Rejected("") && !Rejected("na") && !Rejected("Na") && !Rejected("NA ")
    ensures !Rejected(" 5cats") && !Rejected("-5")
  {
  }

  /** A lowercase string is never the sentinel. */
  lemma SentinelHasUpper(s: string)
    requires HasNoUpper(s)
    ensures s != Sentinel
  {
    if |s| > 0 {
      assert !IsUpper(s[0]);
    }
  }
}
