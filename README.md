# Case converters: camelCase, dot.case and kebab-case

A Dafny model of three JavaScript string converters and proofs about what they
compute:

- `toCamelCase(str)` (refined_prompt.js) refuses a string that starts with a
  digit or equals `"NA"`. It turns every run of `-`/`_` into one space, splits
  on single spaces (empty words included), lowercases word 0, capitalizes every
  other word, and joins the words with nothing between them.
- `toDotCase(str)` (refined_prompt.js) has the same guard. It turns every run
  of `-`/`_` into one `.` and lowercases the whole string.
- `toKebabCase(str)` (chain_prompt.js) has no guard. It puts a `-` inside every
  lowercase-uppercase pair, deletes every character outside `[a-z0-9-]`, and
  then lowercases.

All three are pure, so everything is a datatype, a function or a lemma. The
modules follow the code:

- `Ascii` holds the character classes and the case mapping.
- `Text` holds the JavaScript primitives the converters chain: the global
  replacement of `[-_]+`, `split(' ')` and `join`.
- `Validation` holds the shared guard and the `Result` type. A thrown error is
  an `Err` carrying the kind of error.
- `CamelCase`, `DotCase` and `KebabCase` hold one converter each.
- `Examples` holds the documented examples.

Each converter is related to an independent reference definition:

- The camelCase pipeline (replace, split, map, join) equals a one-pass scan,
  `CamelScan`. A separator is dropped, the character after a separator is
  uppercased, and every other character is lowercased.
- The greedy replacement of delimiter runs equals a one-character-at-a-time
  reader, `CollapseRuns`.
- The left-to-right regular-expression scan that inserts hyphens equals
  looking at every adjacent pair, `HyphenateEachPair`.

The lemmas state what the results are made of on top of those references.

Where a doc comment and the code disagree, the model follows the code:

- `toCamelCase('HTNstatus')` is `"htnstatus"`, not the `'htnStatus'` promised
  at refined_prompt.js:14 and :61.
- `toDotCase('first name')` is `"first name"`, not `'first.name'`
  (refined_prompt.js:27 and :82). A space is not a delimiter there.
- `toKebabCase('helloWorld')` is `"hello-orld"`. See Findings.
- `toCamelCase` is not idempotent: a second application lowercases everything.

## Model

| member | source | states |
|---|---|---|
| Ascii.ToLower | refined_prompt.js:48 | the result is never uppercase; it is a lowercase letter exactly when the input was a letter; an uppercase letter moves by the fixed ASCII offset and every other character is unchanged |
| Ascii.ToUpper | refined_prompt.js:50 | the mirror image of ToLower: never lowercase, a letter exactly when the input was one, only lowercase letters change |
| Ascii.LowerStr | refined_prompt.js:77 | `toLowerCase` keeps the length of the string |
| Ascii.LowerStrAt | refined_prompt.js:77 | lowercasing acts character by character, position for position, and leaves no uppercase letter |
| Ascii.LowerStrChars | refined_prompt.js:77 | conversely, any string that matches the lowercase of every character is the lowercased string |
| Ascii.LowerStrAppend | refined_prompt.js:77 | lowercasing a concatenation concatenates the lowercased parts |
| Ascii.LowerStrNoUpper | chain_prompt.js:5 | lowercasing a string with no uppercase letter changes nothing |
| Text.DropDelimiters | refined_prompt.js:43 | what the greedy `[-_]+` consumes: the result is a suffix that does not start with a delimiter, and everything removed is a delimiter |
| Text.IsDelimiter | refined_prompt.js:43 | the regular-expression class `[-_]`: exactly `-` and `_`; the collapse lemmas are stated in it |
| Text.CollapseDelimiters | refined_prompt.js:43 | `replace(/[-_]+/g, rep)` never lengthens the string, and leaves no delimiter when `rep` is not one |
| Text.CollapseIsRuns | refined_prompt.js:43 | the global replacement equals the one-character reader: a delimiter that opens a run becomes `rep`, one that continues a run vanishes, anything else is kept |
| Text.CollapseRunsAppend | refined_prompt.js:76 | the reader works piece by piece; a run open at the end of the first piece continues into the second |
| Text.CollapseRunsNoDelimiter | refined_prompt.js:76 | without delimiters the reader returns its input and leaves no run open |
| Text.CollapseNoDelimiter | refined_prompt.js:76 | the replacement leaves a string without delimiters unchanged |
| Text.CollapseKeepsOthers | refined_prompt.js:76 | every character that is neither a delimiter nor `rep` survives the replacement, in order |
| Text.Split | refined_prompt.js:44 | `split(' ')` gives one more piece than there are spaces, and no piece holds a space |
| Text.SplitJoin | refined_prompt.js:44 | joining the pieces with spaces gives the string back, so nothing but the spaces is lost |
| Text.Concat | refined_prompt.js:52 | `join('')`: the pieces concatenated in order with nothing between them; its properties are used through CamelCase.WordsAreScan and CamelCase.CamelCaseIsScan |
| Validation.Rejected | refined_prompt.js:38 | the guard `/^\d/.test(s) \|\| s === 'NA'` on the untransformed input: true exactly when the first character is an ASCII digit or the whole string is `"NA"`; both converters' error contracts are stated in it |
| Validation.RejectedExamples | refined_prompt.js:38 | the guard refuses a leading digit and exactly `"NA"`; it accepts `""`, `"na"`, `"Na"`, `"NA "`, `" 5cats"` and `"-5"` |
| Validation.SentinelHasUpper | refined_prompt.js:71 | a string without uppercase letters is never the refused sentinel |
| CamelCase.Capitalize | refined_prompt.js:50 | capitalizing keeps the length; the empty word stays empty |
| CamelCase.CapitalizeAt | refined_prompt.js:50 | the capitalized word's first character is the uppercased first letter and every later one the lowercased letter |
| CamelCase.CapitalizeChars | refined_prompt.js:50 | conversely, a string with those characters is the capitalized word; with CapitalizeAt, a string is the capitalized word exactly when its characters are these |
| CamelCase.CamelWord | refined_prompt.js:45-50 | the `.map` callback: the word at index 0 lowercased, any other word capitalized |
| CamelCase.CamelWords | refined_prompt.js:45-51 | the map keeps one entry per word |
| CamelCase.ToCamelCase | refined_prompt.js:34-53 | an error exactly when the input starts with a digit or is `"NA"`, and then the leading-digit-or-NA kind |
| CamelCase.CamelScan | refined_prompt.js:42-52 | the one-pass reading is never longer than its input and holds no `-`, `_` or space |
| CamelCase.CamelScanAppend | refined_prompt.js:42-52 | the scan works piece by piece; the second piece starts after a separator exactly when the first ends on one |
| CamelCase.CamelScanWord | refined_prompt.js:47-50 | on a single word the scan is `toLowerCase`, or the capitalization when a separator came before |
| CamelCase.CamelScanCollapse | refined_prompt.js:43 | turning delimiter runs into spaces does not change the scan |
| CamelCase.WordsAreScan | refined_prompt.js:44-52 | on a string whose separators are spaces, split, per-word case mapping and join give the scan |
| CamelCase.CamelCaseIsScan | refined_prompt.js:42-52 | an accepted input converts to its one-pass reading |
| CamelCase.CamelCaseShape | refined_prompt.js:42-52 | an accepted input converts successfully to a string with no `-`, `_` or space that is no longer than the input |
| CamelCase.CamelCaseFirstWord | refined_prompt.js:47-48 | the input up to the first separator comes out lowercased, ahead of the rest |
| CamelCase.CamelScanLaterWord | refined_prompt.js:50 | a word right after a separator comes out capitalized between what precedes and what follows |
| CamelCase.CamelCaseLaterWord | refined_prompt.js:50 | the same for the whole conversion of an accepted input |
| CamelCase.CamelCaseTwice | refined_prompt.js:38-52 | converting an accepted result again lowercases it entirely |
| CamelCase.CamelCaseEmpty | refined_prompt.js:44 | the empty string converts to itself (split gives one empty word) |
| CamelCase.CamelCaseOneWord | refined_prompt.js:48 | an input without separators is only lowercased |
| CamelCase.CamelCaseTwoWords | refined_prompt.js:43-52 | two words joined by one separator become the first lowercased followed by the second capitalized |
| DotCase.ToDotCase | refined_prompt.js:67-78 | an error exactly when the input starts with a digit or is `"NA"`, and then the leading-digit-or-NA kind |
| DotCase.DotCaseIsRuns | refined_prompt.js:76 | each run of delimiters becomes one `.`; everything else is kept in place and lowercased |
| DotCase.DotCaseShape | refined_prompt.js:75-77 | an accepted input converts to a string with no delimiter and no uppercase letter that is no longer than the input |
| DotCase.DotCaseKeepsOthers | refined_prompt.js:75-77 | apart from dots, the result is the input's non-delimiter characters, in order, lowercased |
| DotCase.DotCaseIdempotent | refined_prompt.js:71-77 | an accepted result is accepted again and converts to itself |
| DotCase.DotCaseAppend | refined_prompt.js:75-77 | the conversion of `a + b` is that of `a` followed by that of `b`, with a delimiter run open at the end of `a` continuing into `b` |
| DotCase.DotCaseOneWord | refined_prompt.js:77 | an input without delimiters is only lowercased |
| DotCase.DotCaseTwoWords | refined_prompt.js:76 | two words joined by one delimiter come out lowercased and joined by a dot |
| DotCase.DotCaseEmpty | refined_prompt.js:75-77 | the empty string converts to itself |
| KebabCase.InsertBoundaries | chain_prompt.js:3 | the replacement adds exactly one character per lowercase-uppercase pair |
| KebabCase.InsertBoundariesEveryPair | chain_prompt.js:3 | the left-to-right scan that resumes after each match hyphenates every such pair, as looking at each adjacent pair does |
| KebabCase.KeepKebabChars | chain_prompt.js:4 | the deletion leaves only `[a-z0-9-]` and never lengthens |
| KebabCase.IsBoundary | chain_prompt.js:3 | a match of `([a-z])([A-Z])`: an ASCII lowercase letter followed by an ASCII uppercase letter |
| KebabCase.IsKebabChar | chain_prompt.js:4 | the class `[a-z0-9-]`: an ASCII lowercase letter, an ASCII digit or `-`; a character outside it is what the deletion removes |
| KebabCase.ToKebabCase | chain_prompt.js:1-6 | the result is no longer than the input plus one per lowercase-uppercase pair |
| KebabCase.KebabNoUpper | chain_prompt.js:4 | a string of `[a-z0-9-]` has no uppercase letter |
| KebabCase.KebabLowerIsIdentity | chain_prompt.js:4-5 | the final `toLowerCase` has nothing left to change |
| KebabCase.KebabCaseChars | chain_prompt.js:4 | every character of the result is in `[a-z0-9-]` |
| KebabCase.KeepKebabId | chain_prompt.js:4 | the deletion leaves a string of `[a-z0-9-]` unchanged |
| KebabCase.InsertNoUpper | chain_prompt.js:3 | without uppercase letters there is no pair to hyphenate |
| KebabCase.KebabCaseFixesKebab | chain_prompt.js:2-5 | a string made only of `[a-z0-9-]` is returned unchanged |
| KebabCase.KebabCaseIdempotent | chain_prompt.js:1-6 | converting twice is converting once |
| KebabCase.CountInsert | chain_prompt.js:3 | the hyphen insertion adds one `-` per lowercase-uppercase pair |
| KebabCase.CountKeep | chain_prompt.js:4 | the deletion never removes a `-` |
| KebabCase.KebabCaseHyphens | chain_prompt.js:3-4 | the result has as many `-` as the input plus one per lowercase-uppercase pair |
| KebabCase.LettersAndDigitsInsert | chain_prompt.js:3 | the insertion keeps every lowercase letter and digit, in order |
| KebabCase.InsertOnlyHyphens | chain_prompt.js:3 | the insertion adds hyphens and nothing else: with hyphens removed, the result is the input with hyphens removed, uppercase letters and all other characters included, in order |
| KebabCase.NoHyphens | chain_prompt.js:3 | removing hyphens leaves no `-` and never lengthens |
| KebabCase.NoHyphensAppend | chain_prompt.js:3 | removing hyphens works piece by piece |
| KebabCase.LettersAndDigitsKeep | chain_prompt.js:4 | the deletion keeps every lowercase letter and digit, in order |
| KebabCase.KebabCaseDeletesUpper | chain_prompt.js:3-5 | apart from hyphens, the result is exactly the input's lowercase letters and digits in order, so uppercase letters are deleted, not lowercased |
| KebabCase.HyphenateSplit | chain_prompt.js:3 | hyphenating every pair works piece by piece, with the straddling pair's hyphen between the pieces |
| KebabCase.KeepAppend | chain_prompt.js:4 | the deletion works piece by piece |
| KebabCase.KebabCaseSplit | chain_prompt.js:2-5 | the whole conversion works piece by piece: cutting the input cuts the result at the same place, with the hyphen the two neighbouring characters call for |
| KebabCase.ToKebabCaseLowerFirst | chain_prompt.js:3-5 | with the lowercasing moved first, the result is still made only of `[a-z0-9-]` |
| KebabCase.KebabCaseLowerFirstKeepsLetters | chain_prompt.js:3-5 | with the lowercasing moved first, apart from hyphens the result is every letter and digit of the input, in order, lowercased |
| Examples.CamelCaseExample1 | refined_prompt.js:10 | `'first name'` gives `"firstName"` |
| Examples.CamelCaseExample2 | refined_prompt.js:11 | `'user_id'` gives `"userId"` |
| Examples.CamelCaseExample3 | refined_prompt.js:12 | `'SCREEN_NAME'` gives `"screenName"` |
| Examples.CamelCaseExample4 | refined_prompt.js:13 | `'mobile-number'` gives `"mobileNumber"` |
| Examples.CamelCaseExample5 | refined_prompt.js:14 | `'HTNstatus'` gives `"htnstatus"`, not the documented `'htnStatus'` |
| Examples.CamelCaseExample6 | refined_prompt.js:15 | `'5cats'` is refused |
| Examples.CamelCaseExample7 | refined_prompt.js:48 | `'firstName'` gives `"firstname"`: an input already in camelCase loses its capital |
| Examples.CamelCaseNotIdempotent | refined_prompt.js:45-50 | some accepted input converts to a result that converts to something else (`'first name'` → `"firstName"` → `"firstname"`), so the conversion is not idempotent |
| Examples.CamelCaseMakesSentinel | refined_prompt.js:38 | `'_n_a'` gives `"NA"`, which the guard then refuses |
| Examples.DotCaseExample1 | refined_prompt.js:27 | `'first name'` gives `"first name"`, not the documented `'first.name'` |
| Examples.DotCaseExample2 | refined_prompt.js:28 | `'user_id'` gives `"user.id"` |
| Examples.DotCaseExample3 | refined_prompt.js:29 | `'SCREEN_NAME'` gives `"screen.name"` |
| Examples.DotCaseExample4 | refined_prompt.js:30 | `'mobile-number'` gives `"mobile.number"` |
| Examples.DotCaseExample5 | refined_prompt.js:31 | `'HTNstatus'` gives `"htnstatus"` |
| Examples.DotCaseExample6 | refined_prompt.js:32 | `'5cats'` is refused |
| Examples.KebabCaseExample | chain_prompt.js:3-5 | `'helloWorld'` gives `"hello-orld"` |
| Examples.KebabCaseLowerFirstExample | chain_prompt.js:3 | with the lowercasing moved first, `'helloWorld'` gives `"hello-world"` |

## Left out

- The `typeof str !== 'string'` checks (refined_prompt.js:35-37, 68-70) cannot fire, because every argument is a Dafny `string`. The error kind `NotAString` is kept so that the error type matches the code, but nothing produces it.
- toKebabCase on a non-string argument: no such input exists in the model.
- The exact message texts of the thrown errors: an error is its kind.
- The example-usage blocks (refined_prompt.js:55-65, 80-90) print to the console inside try/catch, which is I/O. Their inputs are the `Examples` lemmas.
- Ascii.ToLower: maps only `A`-`Z`. JavaScript's `toLowerCase` also maps non-ASCII letters with the Unicode tables, and that mapping is not modelled.
- Ascii.ToUpper: maps only `a`-`z`. JavaScript's `toUpperCase` also maps non-ASCII letters, some into several characters (`'ß'` gives `"SS"`). So the length-preserving contracts of LowerStr and Capitalize hold only for this ASCII mapping.
- Characters are Unicode scalar values, not UTF-16 code units. `charAt(0)` of a string that starts with a surrogate pair is therefore not modelled.

## Findings

| source | as written | input that shows it | evidently intended | confidence | as-written member | corrected member |
|---|---|---|---|---|---|---|
| chain_prompt.js:4-5 | every character outside `[a-z0-9-]` is deleted before the string is lowercased, so the uppercase letter that starts each word is deleted | `'helloWorld'` gives `"hello-orld"` | lowercase first, then delete, so that `'helloWorld'` gives the kebab case `"hello-world"`; line 3 inserts a hyphen before exactly the letter that line 4 then deletes | high; not executed | Examples.KebabCaseExample | KebabCase.KebabCaseLowerFirstKeepsLetters |

The model keeps `KebabCase.ToKebabCase` as written, because that is what the
code computes. `KebabCase.ToKebabCaseLowerFirst` is the corrected order, and
`Examples.KebabCaseLowerFirstExample` and
`KebabCase.KebabCaseLowerFirstKeepsLetters` are proved about it.
