/** The examples the repository documents for each converter, as the code
    computes them. Where a doc comment promises something else, the lemma
    says so. Each example is the structural lemma of its shape, applied to
    the words of the example, and the evaluation of those words. */
module Examples {
  import opened Ascii
  import opened Validation
  import opened CamelCase
  import opened DotCase
  import opened KebabCase

  // ---------------------------------------------------------------------------
  // toCamelCase

  lemma CamelCaseExample1(s: string)
    requires s == "first name"
    ensures ToCamelCase(s) == Ok("firstName")
  {
    assert s == "first" + [' '] + "name";
    CamelCaseTwoWords("first", ' ', "name");
    LowerFirst();
    CapitalizeName();
    JoinFirstName();
  }

  lemma CamelCaseExample2(s: string)
    requires s == "user_id"
    ensures ToCamelCase(s) == Ok("userId")
  {
    assert s == "user" + ['_'] + "id";
    CamelCaseTwoWords("user", '_', "id");
    LowerUser();
    CapitalizeId();
    JoinUserId();
  }

  lemma CamelCaseExample3(s: string)
    requires s == "SCREEN_NAME"
    ensures ToCamelCase(s) == Ok("screenName")
  {
    assert s == "SCREEN" + ['_'] + "NAME";
    CamelCaseTwoWords("SCREEN", '_', "NAME");
    LowerScreen();
    CapitalizeUpperName();
    JoinScreenName();
  }

  lemma CamelCaseExample4(s: string)
    requires s == "mobile-number"
    ensures ToCamelCase(s) == Ok("mobileNumber")
  {
    assert s == "mobile" + ['-'] + "number";
    CamelCaseTwoWords("mobile", '-', "number");
    LowerMobile();
    CapitalizeNumber();
    JoinMobileNumber();
  }

  /** The doc comment of toCamelCase promises "htnStatus"; nothing separates
      "HTN" from "status", so the whole input is one word and is lowercased. */
  lemma CamelCaseExample5(s: string)
    requires s == "HTNstatus"
    ensures ToCamelCase(s) == Ok("htnstatus")
  {
    CamelCaseOneWord(s);
    LowerHtnStatus();
  }

  lemma CamelCaseExample6()
    ensures ToCamelCase("5cats") == Err(StartsWithDigitOrNA)
  {
  }

  /** An input already in camelCase loses its inner capital. */
  lemma CamelCaseExample7(s: string)
    requires s == "firstName"
    ensures ToCamelCase(s) == Ok("firstname")
  {
    CamelCaseOneWord(s);
    LowerFirstName();
  }

  /** Converting a result again need not give it back: "first name" gives
      "firstName", which gives "firstname". */
  lemma CamelCaseNotIdempotent()
    ensures exists s :: !Rejected(s) && ToCamelCase(ToCamelCase(s).value) != ToCamelCase(s)
  {
    SecondConversionDiffers("first name", "firstName", "firstname");
  }

  /** `s` converts to `r`, and `r` converts to something else. */
  lemma SecondConversionDiffers(s: string, r: string, q: string)
    requires s == "first name" && r == "firstName" && q == "firstname"
    ensures !Rejected(s) && ToCamelCase(ToCamelCase(s).value) != ToCamelCase(s)
    ensures exists t :: !Rejected(t) && ToCamelCase(ToCamelCase(t).value) != ToCamelCase(t)
  {
    CamelCaseExample1(s);
    CamelCaseExample7(r);
    assert q[5] != r[5];
  }

  /** A result can be the very sentinel the guard refuses, so converting it
      again throws. */
  lemma CamelCaseMakesSentinel(s: string)
    requires s == "_n_a"
    ensures ToCamelCase(s) == Ok("NA")
    ensures Rejected(ToCamelCase(s).value)
  {
    CamelCaseIsScan(s);
    ScanSentinel();
  }

  // ---------------------------------------------------------------------------
  // toDotCase

  /** The doc comment of toDotCase promises "first.name"; a space is not a
      delimiter, so it is kept. */
  lemma DotCaseExample1(s: string)
    requires s == "first name"
    ensures ToDotCase(s) == Ok("first name")
  {
    DotCaseOneWord(s);
    LowerFirstSpaceName();
  }

  lemma DotCaseExample2(s: string)
    requires s == "user_id"
    ensures ToDotCase(s) == Ok("user.id")
  {
    assert s == "user" + ['_'] + "id";
    DotCaseTwoWords("user", '_', "id");
    LowerUser();
    LowerId();
    JoinUserDotId();
  }

  lemma DotCaseExample3(s: string)
    requires s == "SCREEN_NAME"
    ensures ToDotCase(s) == Ok("screen.name")
  {
    assert s == "SCREEN" + ['_'] + "NAME";
    DotCaseTwoWords("SCREEN", '_', "NAME");
    LowerScreen();
    LowerName();
    JoinScreenDotName();
  }

  lemma DotCaseExample4(s: string)
    requires s == "mobile-number"
    ensures ToDotCase(s) == Ok("mobile.number")
  {
    assert s == "mobile" + ['-'] + "number";
    DotCaseTwoWords("mobile", '-', "number");
    LowerMobile();
    LowerNumber();
    JoinMobileDotNumber();
  }

  /** As documented: unlike toKebabCase, no boundary is inserted between a
      lowercase and an uppercase letter. */
  lemma DotCaseExample5(s: string)
    requires s == "HTNstatus"
    ensures ToDotCase(s) == Ok("htnstatus")
  {
    DotCaseOneWord(s);
    LowerHtnStatus();
  }

  lemma DotCaseExample6()
    ensures ToDotCase("5cats") == Err(StartsWithDigitOrNA)
  {
  }

  // ---------------------------------------------------------------------------
  // toKebabCase

  /** The hyphen goes in before `W`, but `W` is then deleted as a character
      outside `[a-z0-9-]`, because the lowercasing comes last: the result is
      not the kebab case "hello-world". */
  lemma KebabCaseExample(s: string)
    requires s == "helloWorld"
    ensures ToKebabCase(s) == "hello-orld"
  {
    assert s == "hello" + "World";
    KebabCaseSplit("hello", "World");
    KebabHello();
    KebabWorld();
    GapHelloWorld();
    JoinHelloOrld();
  }

  /** With the lowercasing first, the same input gives "hello-world". */
  lemma KebabCaseLowerFirstExample(s: string)
    requires s == "helloWorld"
    ensures ToKebabCaseLowerFirst(s) == "hello-world"
  {
    InsertHelloWorld();
    LowerHelloWorld();
    KeepHelloWorld();
    LowerFirstSteps(s, "hello-World", "hello-world", "hello-world");
  }

  lemma LowerFirstSteps(s: string, inserted: string, lowered: string, kept: string)
    requires InsertBoundaries(s) == inserted && LowerStr(inserted) == lowered
    requires KeepKebabChars(lowered) == kept
    ensures ToKebabCaseLowerFirst(s) == kept
  {
  }

  // ---------------------------------------------------------------------------
  // The evaluations the examples rely on, one per lemma

  lemma LowerFirst() ensures LowerStr("first") == "first" { LowerStrChars("first", "first"); }

  lemma LowerUser() ensures LowerStr("user") == "user" { LowerStrChars("user", "user"); }

  lemma LowerId() ensures LowerStr("id") == "id" { LowerStrChars("id", "id"); }

  lemma LowerScreen() ensures LowerStr("SCREEN") == "screen" { LowerStrChars("SCREEN", "screen"); }

  lemma LowerName() ensures LowerStr("NAME") == "name" { LowerStrChars("NAME", "name"); }

  lemma LowerMobile() ensures LowerStr("mobile") == "mobile" { LowerStrChars("mobile", "mobile"); }

  lemma LowerNumber() ensures LowerStr("number") == "number" { LowerStrChars("number", "number"); }

  lemma LowerHtnStatus() ensures LowerStr("HTNstatus") == "htnstatus" { LowerStrChars("HTNstatus", "htnstatus"); }

  lemma LowerFirstName() ensures LowerStr("firstName") == "firstname" { LowerStrChars("firstName", "firstname"); }

  lemma LowerFirstSpaceName() ensures LowerStr("first name") == "first name"
  {
    LowerStrChars("first name", "first name");
  }

  lemma ScanSentinel() ensures CamelScan(false, "_n_a") == "NA" { }

  lemma CapitalizeName() ensures Capitalize("name") == "Name" { CapitalizeChars("name", "Name"); }

  lemma CapitalizeUpperName() ensures Capitalize("NAME") == "Name" { CapitalizeChars("NAME", "Name"); }

  lemma CapitalizeId() ensures Capitalize("id") == "Id" { CapitalizeChars("id", "Id"); }

  lemma CapitalizeNumber() ensures Capitalize("number") == "Number" { CapitalizeChars("number", "Number"); }

  lemma JoinFirstName() ensures "first" + "Name" == "firstName" { }

  lemma JoinUserId() ensures "user" + "Id" == "userId" { }

  lemma JoinScreenName() ensures "screen" + "Name" == "screenName" { }

  lemma JoinMobileNumber() ensures "mobile" + "Number" == "mobileNumber" { }

  lemma JoinUserDotId() ensures "user" + "." + "id" == "user.id" { }

  lemma JoinScreenDotName() ensures "screen" + "." + "name" == "screen.name" { }

  lemma JoinMobileDotNumber() ensures "mobile" + "." + "number" == "mobile.number" { }

  lemma JoinHelloOrld() ensures "hello" + "-" + "orld" == "hello-orld" { }

  lemma GapHelloWorld() ensures Gap("hello"[4], "World"[0]) == "-" { }

  /** "hello" is already kebab case. */
  lemma KebabHello()
    ensures ToKebabCase("hello") == "hello"
  {
    assert IsKebab("hello");
    KebabCaseFixesKebab("hello");
  }

  /** "World": no pair to hyphenate, and the capital is deleted. */
  lemma KebabWorld()
    ensures ToKebabCase("World") == "orld"
  {
    InsertWorld();
    KeepWorld();
    LowerOrld();
    KebabSteps("World", "World", "orld", "orld");
  }

  lemma KebabSteps(s: string, inserted: string, kept: string, lowered: string)
    requires InsertBoundaries(s) == inserted && KeepKebabChars(inserted) == kept
    requires LowerStr(kept) == lowered
    ensures ToKebabCase(s) == lowered
  {
  }

  lemma KeepWorld()
    ensures KeepKebabChars("World") == "orld"
  {
    var t := "orld";
    assert "World" == ['W'] + t;
    KeepKebabId(t);
  }

  lemma LowerOrld() ensures LowerStr("orld") == "orld" { LowerStrChars("orld", "orld"); }

  lemma InsertHelloWorld()
    ensures InsertBoundaries("helloWorld") == "hello-World"
  {
    JoinHelloAndWorld();
    InsertBoundariesEveryPair("hello" + "World");
    HyphenateSplit("hello", "World");
    InsertBoundariesEveryPair("hello");
    InsertBoundariesEveryPair("World");
    InsertHello();
    InsertWorld();
    GapHelloWorld();
    JoinHelloWorld();
  }

  lemma InsertHello() ensures InsertBoundaries("hello") == "hello" { InsertNoUpper("hello"); }

  lemma InsertWorld()
    ensures InsertBoundaries("World") == "World"
  {
    var t := "orld";
    assert "World" == ['W'] + t && !IsBoundary('W', 'o');
    InsertNoUpper(t);
  }

  lemma JoinHelloAndWorld() ensures "hello" + "World" == "helloWorld" { }

  lemma JoinHelloWorld() ensures "hello" + "-" + "World" == "hello-World" { }

  lemma LowerHelloWorld() ensures LowerStr("hello-World") == "hello-world"
  {
    LowerStrChars("hello-World", "hello-world");
  }

  lemma KeepHelloWorld() ensures KeepKebabChars("hello-world") == "hello-world"
  {
    assert IsKebab("hello-world");
    KeepKebabId("hello-world");
  }
}
