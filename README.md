# readableRegex validation core in Dafny

This project models the validation core of readableRegex, a web service that
exposes one endpoint per string check or string filter. It has three parts:

- **The `ValidationFunctions` class** (`validationFunctions.js`). It is a
  catalogue of static functions. Each validator tests a regular expression or
  a fixed list. Each filter deletes characters.
- **`bulkOperation`** (`utils/bulkOperation.js`). It runs named catalogue
  functions over a list of values. It records one result per operation, and
  on request it reduces the results to an AND and an OR verdict.
- **`handleAxiosError`** (`utils/axios.js`). It sorts an HTTP client error
  into three kinds: server-side, network and request set-up.

Modules:

- `Results`: `Option` and `Result`.
- `Text`: the character and string operations the JavaScript code relies on:
  - ECMAScript white space and `trim`;
  - ASCII case mapping;
  - `split`, `join` and `includes`.
- `Regex`: a small regular-expression language with a declarative matching
  relation `Matches`. Each pattern of the source is written as a value of
  this language, term by term, so each validator is the pattern it tests.
  `RemoveAll` is `String.replace` with a character class and the `g` flag.
- `ValidationFunctions`: the catalogue. Next to each validator, a lemma
  states what its pattern accepts in plain character terms (the "Meaning"
  lemmas), in both directions. Further lemmas relate validators to each
  other and settle the documented examples.
- `BulkOperation`: the dispatcher. The specification functions `Invoke`,
  `Evaluate` and `Batch` give the answer for one call, one value and one
  batch. The method `BulkOperation` computes it with the source's loop over the
  values, and the method `EvaluateOperations` with its inner loop over one
  value's operations; their postconditions tie each loop to its
  specification function.
- `AxiosErrors`: `handleAxiosError`.

The dispatcher is modelled as the code behaves:

- **Unknown names.** For a name outside the catalogue,
  `ValidationFunctions[operation](value)` throws, and the whole batch is
  lost (`BulkOperation.UnknownOperationAborts`).
- **Arguments.** Every function is called with the value alone. This departs
  from the code's own doc comments (`utils/bulkOperation.js:11-39`,
  `utils/bulkOperationUtil.js:11-12`), which say that an operation's extra
  keys are passed to the function as arguments.
- **AND and OR.** Every result is compared with `=== true`, so a string
  result or a promise counts as "not true".

## Model

| member | source | states |
|---|---|---|
| ValidationFunctions.OnlyNumbers | validationFunctions.js:9-11 | the result holds only the digits 0-9 |
| ValidationFunctions.OnlyNumbersKeepsDigits | validationFunctions.js:9-11 | the result is a subsequence of the input, keeps every digit of the input with its multiplicity, and its length is the input's digit count |
| ValidationFunctions.OnlyLetters | validationFunctions.js:34-36 | the result holds only ASCII letters |
| ValidationFunctions.OnlyLettersKeepsLetters | validationFunctions.js:34-36 | the result is a subsequence of the input and keeps every ASCII letter with its multiplicity |
| ValidationFunctions.OnlySpecialCharacters | validationFunctions.js:44-46 | no letter, digit or white space character is left |
| ValidationFunctions.OnlySpecialCharactersKeepsTheRest | validationFunctions.js:44-46 | the result is a subsequence of the input and keeps every other character with its multiplicity |
| ValidationFunctions.FiltersPartition | validationFunctions.js:9-46 | letters, digits, special characters and white space add up to the input's length |
| ValidationFunctions.FiltersIdempotent | validationFunctions.js:9-90 | applying any of the filters twice gives the same result as applying it once |
| Text.Trimmed | validationFunctions.js:76-78 | the result is a slice of the input with only white space cut off either end, and it neither starts nor ends with white space |
| Text.TrimmedIdempotent | validationFunctions.js:76-78 | trimming twice is trimming once |
| Text.SplitJoinRoundTrip | validationFunctions.js:59-61 | joining the parts of `split` with the separator gives back the string |
| Text.ToLowerCaseIdempotent | validationFunctions.js:371-402 | lower-casing twice is lower-casing once |
| ValidationFunctions.ExcludeTheseCharacters | validationFunctions.js:87-90 | no listed character is left in the result |
| ValidationFunctions.ExcludeTheseCharactersExact | validationFunctions.js:87-90 | the result is a subsequence of the input and keeps every unlisted character with its multiplicity |
| ValidationFunctions.IncludeOnlyTheseCharacters | validationFunctions.js:321-324 | every character left occurs in the joined list |
| ValidationFunctions.IncludeOnlyTheseCharactersExact | validationFunctions.js:321-324 | the result is a subsequence of the input and keeps every listed character with its multiplicity |
| ValidationFunctions.EmptyCharacterLists | validationFunctions.js:87-90 | an empty exclusion list changes nothing, and an empty inclusion list deletes everything |
| ValidationFunctions.ExcludeAfterInclude | validationFunctions.js:321-324 | excluding the characters that were just kept leaves nothing |
| ValidationFunctions.IntegerMeaning | validationFunctions.js:22-25 | `isInteger` holds exactly for "0" and for non-empty digit strings without a leading zero |
| ValidationFunctions.IntegerExamples | test/unit/isInteger.test.js:5-17 | "1234" passes; "01234", ".1234" and "1.1" fail |
| ValidationFunctions.ClassValidatorsMeaning | validationFunctions.js:119-259 | `isAlphaNumeric`, `isLowercase`, `isBinaryString` and `isAllCaps` hold exactly for non-empty strings drawn from their classes |
| ValidationFunctions.AllCapsExcludesLowercase | validationFunctions.js:179-259 | no string is both all capitals and all lower case |
| ValidationFunctions.ClassValidatorsAreAlphaNumeric | validationFunctions.js:9-259 | every class validator implies `isAlphaNumeric`, and a non-empty `onlyNumbers` or `onlyLetters` result is alphanumeric |
| ValidationFunctions.HexadecimalMeaning | validationFunctions.js:199-201 | `isHexadecimal` holds exactly for "0x" followed by one or more hex digits |
| ValidationFunctions.HexadecimalExamples | test/unit/isHexadecimal.test.js:5-29 | the documented accepted and rejected examples ("0XABC123" is rejected) |
| ValidationFunctions.EmailCharMeaning | validationFunctions.js:56 | `[^\s@]` is every character other than white space and `@` |
| ValidationFunctions.DomainPatternMeaning | validationFunctions.js:56 | the domain part matches exactly when it has only such characters and a dot strictly inside it |
| ValidationFunctions.EmailSplit | validationFunctions.js:55-68 | an accepted string has a split point: an `@` with a non-empty local part before it and a valid domain after it |
| ValidationFunctions.EmailJoin | validationFunctions.js:55-68 | a string with such a split point is accepted |
| ValidationFunctions.EmailMeaning | validationFunctions.js:55-68 | `isEmailAddress` holds exactly when the string splits at an `@` into a non-empty local part and a valid domain with no `..` |
| ValidationFunctions.EmailHasAt | validationFunctions.js:59-61 | a string that matches the pattern has a second `split('@')` element, so the lookup never fails |
| ValidationFunctions.EmailSplitOnlyAt | validationFunctions.js:55-68 | with one `@`, the only split point is that `@` |
| ValidationFunctions.EmailNeedsLocalPart | validationFunctions.js:55-68 | a string with no `@`, or one that starts with `@`, fails |
| ValidationFunctions.EmailRejectsTwoAts | validationFunctions.js:55-68 | a string with two `@` fails |
| ValidationFunctions.EmailRejectsDomain | validationFunctions.js:55-68 | a single `@` followed by an invalid domain fails |
| ValidationFunctions.DomainWithoutDot | validationFunctions.js:56 | a domain with no dot is invalid |
| ValidationFunctions.DomainWithoutInnerDot | validationFunctions.js:56 | a domain whose only dots are at its ends is invalid |
| ValidationFunctions.EmailAccepted | test/unit/isEmailAddress.test.js:6 | "test@example.com" passes |
| ValidationFunctions.EmailRejectsPlain | test/unit/isEmailAddress.test.js:13 | "plainaddress" fails: it has no `@` |
| ValidationFunctions.EmailRejectsMissingLocalPart | test/unit/isEmailAddress.test.js:14 | "@missinglocalpart.com" fails: nothing precedes the `@` |
| ValidationFunctions.EmailRejectsSecondAt | test/unit/isEmailAddress.test.js:15 | "user@domain@domain.com" fails: it has two `@` |
| ValidationFunctions.EmailRejectsLeadingDot | test/unit/isEmailAddress.test.js:16 | "user@.com" fails: the domain's only dot is its first character |
| ValidationFunctions.EmailRejectsComma | test/unit/isEmailAddress.test.js:17 | "user@domain,com" fails: the domain has no dot |
| ValidationFunctions.EmailRejectsDoubleDot | test/unit/isEmailAddress.test.js:18 | "user@domain..com" fails: the domain holds `..` |
| ValidationFunctions.EmailRejectsEmpty | test/unit/isEmailAddress.test.js:22 | the empty string fails |
| ValidationFunctions.PhoneMeaning | validationFunctions.js:99-102 | on one line, `isPhoneNumber` holds exactly for optional `+`, optional `(`, 3 digits, optional `)`, optional separator, 3 digits, optional separator, 4 digits |
| ValidationFunctions.PhoneSingleLine | validationFunctions.js:100 | without line terminators, the `m` flag changes nothing |
| ValidationFunctions.PhoneNeedsTenDigits | validationFunctions.js:99-102 | an accepted string contains at least ten digits |
| ValidationFunctions.PhoneMatchHasTenDigits | validationFunctions.js:100 | a matching line has exactly ten digits |
| ValidationFunctions.PhoneCharacters | validationFunctions.js:100 | a matching line holds only digits, `+()-.` and white space |
| ValidationFunctions.PhoneEnding | validationFunctions.js:100 | a match ends in four digits, preceded by three digits or by a separator and three digits |
| ValidationFunctions.PhoneTailMeaning | validationFunctions.js:100 | the exchange-and-line part is seven digits, or three digits, a separator and four digits |
| ValidationFunctions.PhoneToParts | validationFunctions.js:100 | every match splits into the eight parts of the pattern |
| ValidationFunctions.PhoneFromParts | validationFunctions.js:100 | every well-formed assembly of the eight parts matches |
| ValidationFunctions.PhoneAcceptsParts | validationFunctions.js:99-102 | every well-formed assembly of the parts passes |
| ValidationFunctions.PhoneAcceptsHyphens | test/unit/isPhoneNumber.test.js:6 | "123-456-7890" passes |
| ValidationFunctions.PhoneAcceptsDots | test/unit/isPhoneNumber.test.js:7 | "123.456.7890" passes |
| ValidationFunctions.PhoneAcceptsParentheses | test/unit/isPhoneNumber.test.js:8 | "(123) 456-7890" passes |
| ValidationFunctions.PhoneAcceptsSpaces | test/unit/isPhoneNumber.test.js:9 | "123 456 7890" passes |
| ValidationFunctions.PhoneAcceptsPlusHyphens | test/unit/isPhoneNumber.test.js:28 | "+123-456-7890" passes |
| ValidationFunctions.PhoneAcceptsPlusDots | test/unit/isPhoneNumber.test.js:29 | "+123.456.7890" passes |
| ValidationFunctions.PhoneAcceptsDigits | validationFunctions.js:99-102 | "1234567890" passes |
| ValidationFunctions.PhoneAcceptsPlusDigits | validationFunctions.js:99-102 | "+1234567890" passes |
| ValidationFunctions.PhoneRejectsShort | test/unit/isPhoneNumber.test.js:14-21 | the tested "123456789" and "hello world" fail, and so does the further short input "123" |
| ValidationFunctions.PhoneRejectsNineDigits | test/unit/isPhoneNumber.test.js:15 | "123-45-6789" fails |
| ValidationFunctions.PhoneRejectsBadGrouping | test/unit/isPhoneNumber.test.js:23 | "123-45-67890" fails |
| ValidationFunctions.PhoneRejectsLeadingLettersAndHyphens | test/unit/isPhoneNumber.test.js:16 | "abc-456-7890" fails |
| ValidationFunctions.PhoneRejectsLeadingLetters | test/unit/isPhoneNumber.test.js:22 | "test123" fails |
| ValidationFunctions.PhoneRejectsInnerLetters | validationFunctions.js:99-102 | "12345abc678" fails |
| ValidationFunctions.PhoneRejectsFewDigits | validationFunctions.js:99-102 | a string with fewer than ten digits, counting every character after some point as a possible digit, fails |
| ValidationFunctions.ZipPattern | validationFunctions.js:140-150 | a pattern exists exactly for the nine listed country codes |
| ValidationFunctions.ZipMeaning | validationFunctions.js:139-163 | `isZipCode` holds exactly when both arguments are non-empty and the input, with all white space removed, has the layout of the upper-cased country |
| ValidationFunctions.ZipPatternMeaning | validationFunctions.js:140-150 | each country's pattern accepts exactly its layout (US, UK, CA, AU, DE, FR, JP, BR, IN) |
| ValidationFunctions.UKZipMeaning | validationFunctions.js:142 | the UK pattern, in both directions, as letters, digit and inward code |
| ValidationFunctions.CAZipMeaning | validationFunctions.js:143 | the CA pattern, in both directions, as alternating letters and digits |
| ValidationFunctions.ZipShapeLength | validationFunctions.js:140-150 | every accepted layout is 4 to 10 characters long |
| ValidationFunctions.ZipCountryCaseInsensitive | validationFunctions.js:156 | the country code is matched without regard to case |
| ValidationFunctions.ZipIgnoresWhitespace | validationFunctions.js:162 | inserting white space anywhere never changes the verdict |
| ValidationFunctions.ZipRejectsUnknownCountry | validationFunctions.js:159 | an unsupported country code gives false for any input |
| ValidationFunctions.ZipAcceptsSpaced | validationFunctions.js:155-163 | a code of the country's layout passes with white space inserted anywhere in it |
| ValidationFunctions.ZipAcceptsUS | validationFunctions.js:135 | "12345" is a US code |
| ValidationFunctions.ZipAcceptsUK | validationFunctions.js:139-163 | "SW1A 1AA" is a code for the lower-case country "uk" |
| ValidationFunctions.ZipAcceptsCA | validationFunctions.js:136 | "K1A 0B1" is a CA code |
| ValidationFunctions.ZipRejectsShortUS | validationFunctions.js:137 | "123-45" is not a US code |
| ValidationFunctions.DateFormatMeaning | validationFunctions.js:290-299 | each of the eight formats accepts exactly the strings that fit its digit-and-separator template |
| ValidationFunctions.DateMeaning | validationFunctions.js:287-309 | `isDate` holds exactly when the string fits one of the eight templates |
| ValidationFunctions.DateSeparatorTestRedundant | validationFunctions.js:302-308 | no string that fits a format has two adjacent separator characters, so the mixed-separator test never changes the verdict |
| ValidationFunctions.DateByTemplate | validationFunctions.js:287-309 | a string that fits one of the eight templates passes |
| ValidationFunctions.DateByNoTemplate | validationFunctions.js:287-309 | a string that fits none of them fails |
| ValidationFunctions.DateAcceptsISO | test/integration/isDate.test.js:8 | "2025-02-16" passes |
| ValidationFunctions.DateRejectsShortTime | test/unit/isDate.test.js:53 | "2025/02/23 14:30" fails |
| ValidationFunctions.DateRejectsMixedSeparators | test/unit/isDate.test.js:57 | "2025-02/23" fails |
| ValidationFunctions.DecimalMeaning | validationFunctions.js:235-238 | `isDecimal` holds exactly for an optional sign and then digits with an optional point and fraction, or a point and digits |
| ValidationFunctions.IntegerIsDecimal | validationFunctions.js:22-238 | every integer is a decimal |
| ValidationFunctions.DecimalCharacters | validationFunctions.js:235-238 | a decimal holds a digit, and after its first character only digits and points |
| ValidationFunctions.SignedDecimals | validationFunctions.js:235-238 | an unsigned decimal stays a decimal with `+` or `-` in front |
| ValidationFunctions.DecimalWithPoint | validationFunctions.js:235-238 | digits, a point and digits, with at least one digit, is a decimal, and so is its negation |
| ValidationFunctions.DecimalAcceptedUnsigned | test/unit/isDecimal.test.js:5-29 | "23.45", "34.", ".45" and "23" pass |
| ValidationFunctions.DecimalAcceptedSigned | test/unit/isDecimal.test.js:17-33 | "-273.15", "-42.", "-.45" and "-42" pass |
| ValidationFunctions.DecimalRejected | test/unit/isDecimal.test.js:37-49 | "-+34", "34abc", "" and "." fail |
| ValidationFunctions.BooleanMeaning | validationFunctions.js:346-349 | accepted strings are "0", "1" or a spelling of true or false, and the binary ones among them are exactly "0" and "1" |
| ValidationFunctions.BooleanExamples | test/unit/isBoolean.test.js:5-29 | all eight tested strings pass ("true", "false", "TRUE", "FALSE", "True", "False", "0", "1") and all five tested others fail ("yes", "no", "maybe", "", "True ") |
| ValidationFunctions.EqualMeaning | validationFunctions.js:371-376 | case-insensitive equality compares letter by letter under lower-casing; case-sensitive equality implies it |
| ValidationFunctions.EqualIsEquivalence | validationFunctions.js:371-376 | both modes are reflexive, symmetric and transitive |
| ValidationFunctions.ContainsBounds | validationFunctions.js:395-402 | a string contains itself and the empty string, and nothing longer than itself |
| ValidationFunctions.ContainsCaseSensitiveIsStronger | validationFunctions.js:395-402 | case-sensitive containment implies case-insensitive containment, and case-insensitive equality implies it too |
| ValidationFunctions.ContainsExamples | test/unit/contains.test.js:5-41 | all ten tested calls: the five case-sensitive hits and misses, the empty input, the longer needle, and the three hits with `caseSensitive` false ("world" in "Hello World", "exactmatch" in "ExactMatch", "BCD" in "abcdef") |
| ValidationFunctions.StateCodeIsTwoCapitals | validationFunctions.js:442-452 | every accepted code is two capital letters |
| ValidationFunctions.StateCodeExamples | test/unit/isValidStateCode.test.js:6-19 | the tested "LA", "NY" and "FL" pass and "LAX", "NY1", "FL?" and "" fail; the lower-case "la", not among the tests, fails too |
| ValidationFunctions.UrlMeaning | validationFunctions.js:268-270 | `isUrl` holds exactly when the string is a protocol (empty, or "http://" or "https://" in any case), a host of word characters, dots and hyphens, a dot, a TLD of 2 to 6 letters, and an optional path of non-space characters |
| ValidationFunctions.ProtocolMeaning | validationFunctions.js:269 | the protocol group matches exactly "http://" and "https://", in any case |
| ValidationFunctions.UrlToParts | validationFunctions.js:268-270 | every accepted URL has such parts |
| ValidationFunctions.UrlFromParts | validationFunctions.js:268-270 | every assembly of such parts is accepted |
| ValidationFunctions.UrlNoWhitespace | validationFunctions.js:268-270 | an accepted URL holds no white space |
| ValidationFunctions.UrlHasDot | validationFunctions.js:268-270 | an accepted URL holds a dot |
| ValidationFunctions.UrlRejectsThirdSlash | validationFunctions.js:268-270 | a string that starts with "https:///" in any case fails |
| ValidationFunctions.UrlAcceptsHttp | test/unit/isUrl.test.js:5 | "http://example.com" passes |
| ValidationFunctions.UrlAcceptsHttps | test/unit/isUrl.test.js:9 | "https://example.com" passes |
| ValidationFunctions.UrlAcceptsBareDomain | test/unit/isUrl.test.js:13 | "example.com" passes |
| ValidationFunctions.UrlAcceptsPath | test/unit/isUrl.test.js:17 | "https://example.com/path/to/resource" passes |
| ValidationFunctions.UrlAcceptsSubdomain | test/unit/isUrl.test.js:37 | "https://sub.example.com" passes |
| ValidationFunctions.UrlRejectsDotless | test/unit/isUrl.test.js:21-41 | "", "https://", "https:///path" and "https://example@com" fail |
| ValidationFunctions.UrlRejectsSpace | test/unit/isUrl.test.js:29 | "https://example .com" fails |
| ValidationFunctions.UrlRejectsExtraSlashes | test/unit/isUrl.test.js:45 | "https:////example.com" fails |
| ValidationFunctions.DecimalDegreesMeaning | validationFunctions.js:476 | one coordinate of the decimal pattern is an optional minus, 1 to 3 digits and an optional point with digits |
| ValidationFunctions.DecimalPairMeaning | validationFunctions.js:476 | the decimal pattern accepts exactly a coordinate, a comma, white space and a coordinate |
| ValidationFunctions.LatLongDecimalMeaning | validationFunctions.js:466-478 | without `checkDMS`, `isLatLong` holds exactly when the trimmed input splits at commas into two coordinates, the second after optional white space |
| ValidationFunctions.DmsCoordinateMeaning | validationFunctions.js:472 | one DMS coordinate is 1-3 digits, `°`, 1-2 digits, `'`, 1-2 digits with an optional fraction, `"` and a hemisphere letter |
| ValidationFunctions.DmsPairMeaning | validationFunctions.js:472 | the DMS pattern accepts exactly a N/S coordinate, white space and an E/W coordinate |
| ValidationFunctions.LatLongDmsMeaning | validationFunctions.js:466-478 | with `checkDMS`, `isLatLong` holds exactly when the trimmed input is such a pair |
| ValidationFunctions.LatLongTrimmed | validationFunctions.js:467-469 | white space around the input never changes the verdict, in either mode |
| ValidationFunctions.LatLongModesExclusive | validationFunctions.js:470-477 | no input passes in both modes |
| ValidationFunctions.LatLongAcceptsDecimal | test/unit/isLatLong.test.js:5 | "34.052235,-118.243683" passes |
| ValidationFunctions.LatLongAcceptsSpaced | validationFunctions.js:458 | "37.7749, -122.4194" passes |
| ValidationFunctions.LatLongAcceptsDms | validationFunctions.js:459 | `37°46'30"N 122°25'10"W` passes with `checkDMS` and fails without it |
| ValidationFunctions.LatLongRejectsExtraField | test/unit/isLatLong.test.js:15 | "34.052235,-118.243683,extra" fails |
| ValidationFunctions.LatLongAcceptsDmsFraction | test/unit/isLatLong.test.js:9 | `34°3'8.1"N 118°14'37.2"W`, with fractional seconds, passes with `checkDMS` and fails without it |
| ValidationFunctions.LatLongRejectsDmsExtra | test/unit/isLatLong.test.js:20 | `34°3'8.1'N 118°14'37.2'W extra` fails with `checkDMS` |
| ValidationFunctions.NoSecondsMarkRefused | validationFunctions.js:469-473 | an input without a `"` never passes with `checkDMS`, since each coordinate marks its seconds with one |
| BulkOperation.InvokeThrows | utils/bulkOperation.js:61 | a call throws exactly for a name outside the class, reported as not a function, or for `includeOnlyTheseCharacters`, which cannot read `join` |
| BulkOperation.CallResultKinds | utils/bulkOperation.js:61 | of the calls that return, `isCountry` alone gives a pending promise and only the five filters give strings |
| BulkOperation.BulkOperation | utils/bulkOperation.js:45-78 | the loop over the values produces exactly the batch's specified outcome |
| BulkOperation.EvaluateOperations | utils/bulkOperation.js:58-65 | the loop over one value's operations produces exactly its specified evaluation, ending at the first exception |
| BulkOperation.FailureStopsBatch | utils/bulkOperation.js:49-66 | the first exception, at any value and operation, is the outcome of the whole batch |
| BulkOperation.EvaluateMeaning | utils/bulkOperation.js:58-66 | a value's evaluation succeeds exactly when every operation does, and then holds one record per operation, in order, with that operation's result |
| BulkOperation.EvaluateFailure | utils/bulkOperation.js:58-66 | a failed evaluation reports the exception of its first failing operation |
| BulkOperation.BatchMeaning | utils/bulkOperation.js:45-78 | a batch succeeds exactly when every value does, and then holds one record per value, in input order, each the summary of its results |
| BulkOperation.UnknownOperationAborts | utils/bulkOperation.js:61 | a name that is not a method of the class, anywhere, aborts the batch |
| BulkOperation.VerdictsMeaning | utils/bulkOperation.js:67-72 | a verdict is present exactly when requested; AND is true exactly when every call returned the boolean `true`, and OR exactly when one did |
| BulkOperation.NoOperations | utils/bulkOperation.js:67-72 | with no operations, AND is true and OR is false |
| BulkOperation.AndImpliesOr | utils/bulkOperation.js:67-72 | with at least one result, a true AND forces a true OR |
| BulkOperation.NonBooleanFailsAnd | utils/bulkOperation.js:67-69 | a filter or `isCountry` in the list makes AND false |
| BulkOperation.DocumentedExampleAborts | utils/bulkOperation.js:11-26 | the example operation set in the comment throws on `isNumber` |
| AxiosErrors.MessageOr | utils/axios.js:25 | an absent or empty message is replaced by the fallback; any other message is kept |
| AxiosErrors.HandleAxiosError | utils/axios.js:1-30 | a response gives "server-side" with its status and text; else a request gives "network" with 503; else "request" with 400; the message is never empty |
| AxiosErrors.RequestMessage | utils/axios.js:20-27 | a set-up failure keeps its own non-empty message, otherwise it uses the fallback text |
| AxiosErrors.CodeIdentifiesKind | utils/axios.js:1-30 | unless the server itself sent 400 or 503, the code 503 means "network" and 400 means "request" |

## Left out

- `isCountry` posts the name to an external country API. The network call is not modelled. In the dispatcher its result is an unresolved promise (`Pending`), which is never `=== true`.
- The second `handleAxiosError` at the end of `validationFunctions.js` is not modelled. It only formats a message for `isCountry`'s network failure.
- The HTTP routes, the server, the Gemini-backed validator, rate limiting and the views are not part of this model.
- Non-string inputs are not modelled. The `typeof` guards in `isDate`, `isEqual` and `isLatLong` are not modelled either. Every input is a string; `!str` is the empty-string test.
- Dispatch of inherited `Function` members (`call`, `bind`, `toString`, `length`, `name`) is not modelled. Every name outside the catalogue is treated as "not a function".
- Case mapping is ASCII only. `toLowerCase` and `toUpperCase` of non-ASCII letters are not modelled.
- Strings are sequences of Unicode scalar values, not UTF-16 code units. Astral characters and lone surrogates are not modelled.
- ValidationFunctions.ExcludeTheseCharacters: the listed characters are read as a literal set. A `]`, `\`, `^` or `-` in the list, which JavaScript would read as class syntax, is not modelled.
- ValidationFunctions.IncludeOnlyTheseCharacters: the same reading applies to the joined list.
- ValidationFunctions.IsLatLong: checks the format only, as the source does. Degrees above 90 or 180 are accepted.
- The comment at `validationFunctions.js:305` says the mixed-separator test rejects "2025-02/23". That string already fails every format, and `DateSeparatorTestRedundant` shows the test never changes a verdict.
