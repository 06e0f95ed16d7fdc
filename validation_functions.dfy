/**
 * The catalogue of static validators and string filters of the
 * `ValidationFunctions` class. Each validator is a predicate on strings,
 * stated through the regular expression the class tests (module Regex),
 * and each filter is a character deletion. Next to each one a lemma says
 * what the pattern means in plain terms, and further lemmas relate the
 * validators to each other and check the documented examples.
 */
module ValidationFunctions {
  import opened Results
  import opened Text
  import opened Regex

  // ---------------------------------------------------------------------
  // Filters
  // ---------------------------------------------------------------------

  /** `onlyNumbers`: every character outside `[0-9]` is deleted. */
  function OnlyNumbers(str: string): (r: string)
    ensures AllIn(Digit, r)
  {
    RemoveAll(Not(Digit), str)
  }

  /** `onlyLetters`: every character outside `[a-zA-Z]` is deleted. */
  function OnlyLetters(str: string): (r: string)
    ensures AllIn(Letter, r)
  {
    RemoveAll(Not(Letter), str)
  }

  /** `onlySpecialCharacters`: letters, digits and white space are deleted. */
  function OnlySpecialCharacters(str: string): (r: string)
    ensures forall i :: 0 <= i < |r| ==> !AlphaNumeric.Has(r[i]) && !IsWhitespace(r[i])
  {
    RemoveAll(Union(AlphaNumeric, Space), str)
  }

  /**
   * `excludeTheseCharacters`: every character listed in `excludeChars` is
   * deleted; the list is read as a set of literal characters.
   */
  function ExcludeTheseCharacters(inputString: string, excludeChars: string): (r: string)
    ensures forall i :: 0 <= i < |r| ==> r[i] !in excludeChars
  {
    RemoveAll(AnyOf(excludeChars), inputString)
  }

  /**
   * `includeOnlyTheseCharacters`: every character that occurs in none of the
   * listed strings is deleted.
   */
  function IncludeOnlyTheseCharacters(inputString: string, onlyTheseCharacters: seq<string>): (r: string)
    ensures forall i :: 0 <= i < |r| ==> r[i] in Join(onlyTheseCharacters)
  {
    var r := RemoveAll(Not(AnyOf(Join(onlyTheseCharacters))), inputString);
    assert forall i :: 0 <= i < |r| ==> r[i] in Join(onlyTheseCharacters) by {
      forall i | 0 <= i < |r| ensures r[i] in Join(onlyTheseCharacters) {
        assert !Not(AnyOf(Join(onlyTheseCharacters))).Has(r[i]);
        assert AnyOf(Join(onlyTheseCharacters)).Has(r[i]);
      }
    }
    r
  }

  /** `onlyNumbers` keeps every digit of its input, in order, and nothing else. */
  lemma OnlyNumbersKeepsDigits(str: string)
    ensures IsSubsequence(OnlyNumbers(str), str)
    ensures forall c :: '0' <= c <= '9' ==> multiset(OnlyNumbers(str))[c] == multiset(str)[c]
    ensures |OnlyNumbers(str)| == Count(Digit, str)
  {
    Filtered(Not(Digit), str);
    CountIsKept(Digit, str);
  }

  /** `onlyLetters` keeps every ASCII letter of its input, in order, and nothing else. */
  lemma OnlyLettersKeepsLetters(str: string)
    ensures IsSubsequence(OnlyLetters(str), str)
    ensures forall c :: Letter.Has(c) ==> multiset(OnlyLetters(str))[c] == multiset(str)[c]
  {
    Filtered(Not(Letter), str);
  }

  /** `onlySpecialCharacters` keeps every other character, in order. */
  lemma OnlySpecialCharactersKeepsTheRest(str: string)
    ensures IsSubsequence(OnlySpecialCharacters(str), str)
    ensures forall c :: !AlphaNumeric.Has(c) && !IsWhitespace(c) ==>
      multiset(OnlySpecialCharacters(str))[c] == multiset(str)[c]
  {
    Filtered(Union(AlphaNumeric, Space), str);
    forall c | !AlphaNumeric.Has(c) && !IsWhitespace(c) ensures !Union(AlphaNumeric, Space).Has(c) {
    }
  }

  /**
   * Letters, digits, special characters and white space partition a string:
   * the three filters and the white space together account for every character.
   */
  lemma {:induction false} FiltersPartition(str: string)
    ensures |OnlyLetters(str)| + |OnlyNumbers(str)| + |OnlySpecialCharacters(str)| + Count(Space, str) == |str|
    decreases |str|
  {
    if str != [] {
      var c, t := str[0], str[1..];
      FiltersPartition(t);
      NamedClasses();
      assert |OnlyLetters(str)| == |OnlyLetters(t)| + if Letter.Has(c) then 1 else 0;
      assert |OnlyNumbers(str)| == |OnlyNumbers(t)| + if Digit.Has(c) then 1 else 0;
      assert Union(AlphaNumeric, Space).Has(c) == (AlphaNumeric.Has(c) || IsWhitespace(c));
      assert |OnlySpecialCharacters(str)| == |OnlySpecialCharacters(t)|
        + if AlphaNumeric.Has(c) || IsWhitespace(c) then 0 else 1;
      assert Count(Space, str) == Count(Space, t) + if IsWhitespace(c) then 1 else 0;
    }
  }

  /** Filtering twice gives the same as filtering once. */
  lemma FiltersIdempotent(str: string, chars: string, allowed: seq<string>)
    ensures OnlyNumbers(OnlyNumbers(str)) == OnlyNumbers(str)
    ensures OnlyLetters(OnlyLetters(str)) == OnlyLetters(str)
    ensures OnlySpecialCharacters(OnlySpecialCharacters(str)) == OnlySpecialCharacters(str)
    ensures ExcludeTheseCharacters(ExcludeTheseCharacters(str, chars), chars) == ExcludeTheseCharacters(str, chars)
    ensures IncludeOnlyTheseCharacters(IncludeOnlyTheseCharacters(str, allowed), allowed)
      == IncludeOnlyTheseCharacters(str, allowed)
  {
    RemoveAllIdempotent(Not(Digit), str);
    RemoveAllIdempotent(Not(Letter), str);
    RemoveAllIdempotent(Union(AlphaNumeric, Space), str);
    RemoveAllIdempotent(AnyOf(chars), str);
    RemoveAllIdempotent(Not(AnyOf(Join(allowed))), str);
  }

  /** `excludeTheseCharacters` deletes exactly the listed characters and keeps the rest in order. */
  lemma ExcludeTheseCharactersExact(inputString: string, excludeChars: string)
    ensures IsSubsequence(ExcludeTheseCharacters(inputString, excludeChars), inputString)
    ensures forall c :: c !in excludeChars ==>
      multiset(ExcludeTheseCharacters(inputString, excludeChars))[c] == multiset(inputString)[c]
  {
    Filtered(AnyOf(excludeChars), inputString);
  }

  /** `includeOnlyTheseCharacters` keeps exactly the listed characters, in order. */
  lemma IncludeOnlyTheseCharactersExact(inputString: string, onlyTheseCharacters: seq<string>)
    ensures IsSubsequence(IncludeOnlyTheseCharacters(inputString, onlyTheseCharacters), inputString)
    ensures forall c :: (exists j :: 0 <= j < |onlyTheseCharacters| && c in onlyTheseCharacters[j]) ==>
      multiset(IncludeOnlyTheseCharacters(inputString, onlyTheseCharacters))[c] == multiset(inputString)[c]
  {
    var kept := Not(AnyOf(Join(onlyTheseCharacters)));
    Filtered(kept, inputString);
    forall c | exists j :: 0 <= j < |onlyTheseCharacters| && c in onlyTheseCharacters[j]
      ensures !kept.Has(c)
    {
      assert c in Join(onlyTheseCharacters);
    }
  }

  /** An empty exclusion list changes nothing; an empty allowed list leaves nothing. */
  lemma EmptyCharacterLists(inputString: string)
    ensures ExcludeTheseCharacters(inputString, "") == inputString
    ensures IncludeOnlyTheseCharacters(inputString, []) == ""
  {
    RemoveAllUnchanged(AnyOf(""), inputString);
    RemoveAllEverything(Not(AnyOf(Join([]))), inputString);
  }

  /** Excluding the allowed characters from what `includeOnlyTheseCharacters` kept leaves nothing. */
  lemma ExcludeAfterInclude(inputString: string, onlyTheseCharacters: seq<string>)
    ensures ExcludeTheseCharacters(IncludeOnlyTheseCharacters(inputString, onlyTheseCharacters), Join(onlyTheseCharacters)) == ""
  {
    RemoveAllEverything(AnyOf(Join(onlyTheseCharacters)), IncludeOnlyTheseCharacters(inputString, onlyTheseCharacters));
  }

  // ---------------------------------------------------------------------
  // Validators built on one character class
  // ---------------------------------------------------------------------

  /** `isAlphaNumeric`: `/^[a-zA-Z0-9]+$/`. */
  predicate IsAlphaNumeric(str: string) {
    Matches(Plus(Class(AlphaNumeric)), str)
  }

  /** `isLowercase`: `/^[a-z]+$/`. */
  predicate IsLowercase(str: string) {
    Matches(Plus(Class(Lower)), str)
  }

  /** `isBinaryString`: `/^[01]+$/`. */
  predicate IsBinaryString(str: string) {
    Matches(Plus(Class(AnyOf("01"))), str)
  }

  /** `isAllCaps`: `/^[A-Z]+$/`. */
  predicate IsAllCaps(str: string) {
    Matches(Plus(Class(Upper)), str)
  }

  /** Each of the four accepts exactly the non-empty strings drawn from its class. */
  lemma ClassValidatorsMeaning(str: string)
    ensures IsAlphaNumeric(str) <==> |str| > 0 && forall i :: 0 <= i < |str| ==> AlphaNumeric.Has(str[i])
    ensures IsLowercase(str) <==> |str| > 0 && forall i :: 0 <= i < |str| ==> 'a' <= str[i] <= 'z'
    ensures IsBinaryString(str) <==> |str| > 0 && forall i :: 0 <= i < |str| ==> str[i] == '0' || str[i] == '1'
    ensures IsAllCaps(str) <==> |str| > 0 && forall i :: 0 <= i < |str| ==> 'A' <= str[i] <= 'Z'
  {
    PlusClass(AlphaNumeric, str);
    PlusClass(Lower, str);
    PlusClass(AnyOf("01"), str);
    PlusClass(Upper, str);
  }

  /** No string is both all capitals and all lower case. */
  lemma AllCapsExcludesLowercase(str: string)
    ensures !(IsAllCaps(str) && IsLowercase(str))
  {
    ClassValidatorsMeaning(str);
    if IsAllCaps(str) {
      assert 'A' <= str[0] <= 'Z';
    }
  }

  /** Capitals, lower case and binary strings are all alphanumeric, and so is what the filters keep. */
  lemma ClassValidatorsAreAlphaNumeric(str: string)
    ensures IsAllCaps(str) ==> IsAlphaNumeric(str)
    ensures IsLowercase(str) ==> IsAlphaNumeric(str)
    ensures IsBinaryString(str) ==> IsAlphaNumeric(str)
    ensures OnlyNumbers(str) != "" ==> IsAlphaNumeric(OnlyNumbers(str))
    ensures OnlyLetters(str) != "" ==> IsAlphaNumeric(OnlyLetters(str))
  {
    NamedClasses();
    ClassValidatorsMeaning(str);
    ClassValidatorsMeaning(OnlyNumbers(str));
    ClassValidatorsMeaning(OnlyLetters(str));
  }

  // ---------------------------------------------------------------------
  // isInteger, isHexadecimal
  // ---------------------------------------------------------------------

  /** `/^(0|[1-9][0-9]*)$/` */
  const IntegerPattern := Alt(Lit('0'), Cat(Class(NonZeroDigit), Star(Class(Digit))))

  /** `isInteger` */
  predicate IsInteger(str: string) {
    Matches(IntegerPattern, str)
  }

  /** An integer is `0` or a non-empty digit string that does not start with `0`. */
  lemma IntegerMeaning(str: string)
    ensures IsInteger(str) <==> str == "0" || (|str| > 0 && str[0] != '0' && AllIn(Digit, str))
  {
    assert Matches(Lit('0'), str) <==> str == "0" by {
      if |str| == 1 {
        assert str == [str[0]];
      }
    }
    CatFixedFront(Class(NonZeroDigit), Star(Class(Digit)), str);
    if |str| > 0 {
      StarClass(Digit, str[1..]);
      AllInCons(Digit, str);
    }
  }

  /** The documented examples of `isInteger`. */
  lemma IntegerExamples()
    ensures IsInteger("1234")
    ensures !IsInteger("01234") && !IsInteger(".1234") && !IsInteger("1.1")
  {
    IntegerMeaning("1234");
    IntegerMeaning("01234");
    IntegerMeaning(".1234");
    IntegerMeaning("1.1");
    assert !Digit.Has(".1234"[0]);
    assert !Digit.Has("1.1"[1]);
  }

  /** `/^0x[0-9a-fA-F]+$/`: a lower-case `0x` prefix is required. */
  const HexadecimalPattern := Cat(Word("0x"), Plus(Class(HexDigit)))

  /** `isHexadecimal` */
  predicate IsHexadecimal(str: string) {
    Matches(HexadecimalPattern, str)
  }

  /** A hexadecimal number is `0x` followed by at least one hexadecimal digit. */
  lemma HexadecimalMeaning(str: string)
    ensures IsHexadecimal(str) <==>
      |str| > 2 && str[0] == '0' && str[1] == 'x' && AllIn(HexDigit, str[2..])
  {
    assert Width(Word("0x")) == Some(2);
    CatFixedFront(Word("0x"), Plus(Class(HexDigit)), str);
    if |str| >= 2 {
      WordMatches("0x", str[..2]);
      PlusClass(HexDigit, str[2..]);
      if str[0] == '0' && str[1] == 'x' {
        assert str[..2] == "0x";
      }
    }
  }

  /** The documented examples of `isHexadecimal`. */
  lemma HexadecimalExamples()
    ensures IsHexadecimal("0x1a3f") && IsHexadecimal("0xABC123")
    ensures !IsHexadecimal("0XABC123") && !IsHexadecimal("1a3f") && !IsHexadecimal("0xg123")
    ensures !IsHexadecimal("0x abc") && !IsHexadecimal("")
  {
    NamedClasses();
    HexadecimalMeaning("0x1a3f");
    AllInByMembers(HexDigit, "0x1a3f"[2..]);
    HexadecimalMeaning("0xABC123");
    AllInByMembers(HexDigit, "0xABC123"[2..]);
    HexadecimalMeaning("0XABC123");
    HexadecimalMeaning("1a3f");
    HexadecimalMeaning("0xg123");
    assert !HexDigit.Has("0xg123"[2..][0]);
    HexadecimalMeaning("0x abc");
    assert !HexDigit.Has("0x abc"[2..][0]);
    HexadecimalMeaning("");
  }

  // ---------------------------------------------------------------------
  // isEmailAddress
  // ---------------------------------------------------------------------

  /** `[^\s@]` */
  const EmailChar := Not(Union(Space, Single('@')))

  /** The domain part of the email pattern: `[^\s@]+\.[^\s@]+`. */
  const DomainPattern := Cat(Plus(Class(EmailChar)), Cat(Lit('.'), Plus(Class(EmailChar))))

  /** `/^[^\s@]+@[^\s@]+\.[^\s@]+$/` */
  const EmailPattern := Cat(Plus(Class(EmailChar)), Cat(Lit('@'), DomainPattern))

  /**
   * `isEmailAddress`: the pattern holds, and the part after the first `@`
   * has no two dots in a row.
   */
  predicate IsEmailAddress(str: string) {
    if Matches(EmailPattern, str) then
      EmailHasAt(str);
      !Includes(Split(str, '@')[1], "..")
    else
      false
  }

  lemma EmailHasAt(str: string)
    requires Matches(EmailPattern, str)
    ensures |Split(str, '@')| >= 2
  {
    MatchHasNeeded(EmailPattern, '@', str);
  }

  lemma EmailCharMeaning()
    ensures forall c :: EmailChar.Has(c) <==> !IsWhitespace(c) && c != '@'
  {
    forall c ensures EmailChar.Has(c) <==> !IsWhitespace(c) && c != '@' {
      assert Union(Space, Single('@')).Has(c) == (Space.Has(c) || Single('@').Has(c));
    }
  }

  /** A domain has a dot with a character on each side and no two dots in a row. */
  predicate ValidDomain(domain: string) {
    (exists j :: 0 < j < |domain| - 1 && domain[j] == '.') && !Includes(domain, "..")
  }

  /**
   * `str` is a local part, the only `@` at position `k`, and a valid domain,
   * with no white space anywhere.
   */
  predicate EmailSplitAt(str: string, k: int) {
    0 < k < |str| && str[k] == '@' && '@' !in str[..k] && '@' !in str[k + 1..]
    && NoWhitespace(str) && ValidDomain(str[k + 1..])
  }

  lemma DomainPatternMeaning(domain: string)
    ensures Matches(DomainPattern, domain) <==>
      AllIn(EmailChar, domain) && exists j :: 0 < j < |domain| - 1 && domain[j] == '.'
  {
    EmailCharMeaning();
    PlusLitPlus(EmailChar, '.', domain);
  }

  /** An email address is a local part, one `@` and a valid domain, without white space. */
  lemma EmailMeaning(str: string)
    ensures IsEmailAddress(str) <==> exists k :: EmailSplitAt(str, k)
  {
    if IsEmailAddress(str) {
      EmailSplit(str);
    }
    if exists k :: EmailSplitAt(str, k) {
      var k :| EmailSplitAt(str, k);
      EmailJoin(str, k);
    }
  }

  /** An accepted address splits at its only `@`. */
  lemma EmailSplit(str: string)
    requires IsEmailAddress(str)
    ensures exists k :: EmailSplitAt(str, k)
  {
    EmailCharMeaning();
    PlusClassThenLit(EmailChar, '@', DomainPattern, str);
    var k :| 0 < k < |str| && str[k] == '@' && AllIn(EmailChar, str[..k]) && Matches(DomainPattern, str[k + 1..]);
    EmailSplitFrom(str, k);
  }

  /** An accepted address split where the pattern splits it. */
  lemma EmailSplitFrom(str: string, k: nat)
    requires IsEmailAddress(str)
    requires 0 < k < |str| && str[k] == '@' && AllIn(EmailChar, str[..k]) && Matches(DomainPattern, str[k + 1..])
    ensures EmailSplitAt(str, k)
  {
    var domain := str[k + 1..];
    DomainPatternMeaning(domain);
    EmailCharsOnly(str[..k]);
    EmailCharsOnly(domain);
    SplitAtOnlySeparator(str, '@', k);
    forall i | 0 <= i < |str| ensures !IsWhitespace(str[i]) {
      if i < k {
        assert str[..k][i] == str[i];
      } else if i > k {
        assert domain[i - k - 1] == str[i];
      }
    }
  }

  /** Characters of `[^\s@]` are neither `@` nor white space. */
  lemma EmailCharsOnly(s: string)
    requires AllIn(EmailChar, s)
    ensures '@' !in s && NoWhitespace(s)
  {
    EmailCharMeaning();
    forall i | 0 <= i < |s| ensures s[i] != '@' && !IsWhitespace(s[i]) {
      assert EmailChar.Has(s[i]);
    }
  }

  /** A split at an only `@` with a valid domain is accepted. */
  lemma EmailJoin(str: string, k: int)
    requires EmailSplitAt(str, k)
    ensures IsEmailAddress(str)
  {
    EmailCharMeaning();
    var x := EmailChar;
    PlusClassThenLit(x, '@', DomainPattern, str);
    var domain := str[k + 1..];
    assert AllIn(x, str[..k]) by {
      forall i | 0 <= i < k ensures x.Has(str[..k][i]) {
        assert str[..k][i] == str[i];
        assert str[..k][i] in str[..k];
      }
    }
    assert AllIn(x, domain) by {
      forall i | 0 <= i < |domain| ensures x.Has(domain[i]) {
        assert domain[i] == str[k + 1 + i];
        assert domain[i] in domain;
      }
    }
    DomainPatternMeaning(domain);
    SplitAtOnlySeparator(str, '@', k);
  }

  /** When `@` occurs once, at `at`, that is the only place an address can split. */
  lemma EmailSplitOnlyAt(str: string, at: nat)
    requires at < |str| && str[at] == '@' && '@' !in str[..at] && '@' !in str[at + 1..]
    ensures forall k :: EmailSplitAt(str, k) ==> k == at
  {
    OnlyOccurrence(str, '@', at);
  }

  /** A domain without a dot is not valid. */
  lemma DomainWithoutDot(domain: string)
    requires '.' !in domain
    ensures !ValidDomain(domain)
  {
    forall j | 0 <= j < |domain| ensures domain[j] != '.' {
      assert domain[j] in domain;
    }
  }

  /** A domain with nothing but its first and last character around the dots is not valid. */
  lemma DomainWithoutInnerDot(domain: string)
    requires |domain| >= 2 && '.' !in domain[1..|domain| - 1]
    ensures !ValidDomain(domain)
  {
    forall j | 0 < j < |domain| - 1 ensures domain[j] != '.' {
      assert domain[1..|domain| - 1][j - 1] == domain[j];
    }
  }

  /** The documented accepted example of `isEmailAddress`. */
  lemma EmailAccepted(good: string)
    requires good == "test@example.com"
    ensures IsEmailAddress(good)
  {
    ExampleEmailSlices(good);
    ExampleEmailNoWhitespace(good);
    ExampleDomainValid(good[5..]);
    EmailJoin(good, 4);
  }

  /** Where the parts of the documented address sit. */
  lemma ExampleEmailSlices(good: string)
    requires good == "test@example.com"
    ensures |good| == 16 && good[4] == '@' && good[5..] == "example.com"
    ensures '@' !in good[..4] && '@' !in good[5..]
  {
    assert good[..4] == "test";
  }

  /** The documented address has no white space. */
  lemma ExampleEmailNoWhitespace(good: string)
    requires good == "test@example.com"
    ensures NoWhitespace(good)
  {
    NoWhitespaceByMembers(good);
  }

  lemma ExampleDomainValid(domain: string)
    requires domain == "example.com"
    ensures ValidDomain(domain)
  {
    assert domain[7] == '.';
    forall i: nat | i <= |domain| ensures !OccursAt(domain, "..", i) {
      if i + 2 <= |domain| {
        assert domain[i..i + 2][0] == domain[i] && domain[i..i + 2][1] == domain[i + 1];
        OnlyOccurrence(domain, '.', 7);
      }
    }
  }

  /** An address needs an `@` with something before it. */
  lemma EmailNeedsLocalPart(str: string)
    requires '@' !in str || (|str| > 0 && str[0] == '@')
    ensures !IsEmailAddress(str)
  {
    EmailMeaning(str);
    forall k | 0 < k < |str| && str[k] == '@' ensures '@' in str[..k] {
      assert str[k] in str;
      assert str[..k][0] == str[0];
    }
  }

  /** An address with two `@` signs is rejected. */
  lemma EmailRejectsTwoAts(str: string, a: nat, b: nat)
    requires a < b < |str| && str[a] == '@' && str[b] == '@'
    ensures !IsEmailAddress(str)
  {
    forall k | 0 < k < |str| && str[k] == '@' ensures '@' in str[..k] || '@' in str[k + 1..] {
      if k < b {
        assert str[k + 1..][b - k - 1] == '@';
      } else {
        assert str[..k][a] == '@';
      }
    }
    EmailMeaning(str);
  }

  /** An address whose only `@` is followed by an invalid domain is rejected. */
  lemma EmailRejectsDomain(str: string, at: nat)
    requires at < |str| && str[at] == '@' && '@' !in str[..at] && '@' !in str[at + 1..]
    requires !ValidDomain(str[at + 1..])
    ensures !IsEmailAddress(str)
  {
    EmailSplitOnlyAt(str, at);
    EmailMeaning(str);
  }

  /** Documented rejected examples of `isEmailAddress`: no local part before an `@`. */
  lemma EmailRejectsPlain(str: string)
    requires str == "plainaddress"
    ensures !IsEmailAddress(str)
  {
    assert '@' !in str;
    EmailNeedsLocalPart(str);
  }

  lemma EmailRejectsMissingLocalPart(str: string)
    requires str == "@missinglocalpart.com"
    ensures !IsEmailAddress(str)
  {
    EmailNeedsLocalPart(str);
  }

  lemma EmailRejectsEmpty(str: string)
    requires str == ""
    ensures !IsEmailAddress(str)
  {
    EmailNeedsLocalPart(str);
  }

  /** Documented rejected example of `isEmailAddress`: two `@` signs. */
  lemma EmailRejectsSecondAt(str: string)
    requires str == "user@domain@domain.com"
    ensures !IsEmailAddress(str)
  {
    EmailRejectsTwoAts(str, 4, 11);
  }

  /** Documented rejected examples of `isEmailAddress`: the domain is malformed. */
  lemma EmailRejectsLeadingDot(str: string)
    requires str == "user@.com"
    ensures !IsEmailAddress(str)
  {
    assert str[5..] == ".com" && str[..4] == "user";
    DomainWithoutInnerDot(str[5..]);
    EmailRejectsDomain(str, 4);
  }

  lemma EmailRejectsComma(str: string)
    requires str == "user@domain,com"
    ensures !IsEmailAddress(str)
  {
    EmailCommaSlices(str);
    DomainWithoutDot(str[5..]);
    EmailRejectsDomain(str, 4);
  }

  /** Where the parts of the example above sit. */
  lemma EmailCommaSlices(str: string)
    requires str == "user@domain,com"
    ensures str[5..] == "domain,com" && str[..4] == "user" && str[4] == '@'
  {
  }

  lemma EmailRejectsDoubleDot(str: string)
    requires str == "user@domain..com"
    ensures !IsEmailAddress(str)
  {
    EmailDoubleDotSlices(str);
    DoubleDotDomain(str[5..]);
    EmailRejectsDomain(str, 4);
  }

  /** Where the parts of the example above sit. */
  lemma EmailDoubleDotSlices(str: string)
    requires str == "user@domain..com"
    ensures str[5..] == "domain..com" && str[..4] == "user" && str[4] == '@'
  {
  }

  /** The domain of the example above holds `..`, so it is invalid. */
  lemma DoubleDotDomain(domain: string)
    requires domain == "domain..com"
    ensures !ValidDomain(domain)
  {
    assert OccursAt(domain, "..", 6);
  }

  // ---------------------------------------------------------------------
  // isDecimal
  // ---------------------------------------------------------------------

  /** `\d+(\.\d*)?`: digits, then optionally a point and more digits. */
  const DigitsThenFraction := Cat(Plus(Class(Digit)), Opt(Cat(Lit('.'), Star(Class(Digit)))))

  /** `\.\d+`: a point and at least one digit. */
  const FractionOnly := Cat(Lit('.'), Plus(Class(Digit)))

  /** `/^[+-]?(\d+(\.\d*)?|\.\d+)$/` */
  const DecimalPattern := Cat(Opt(Class(AnyOf("+-"))), Alt(DigitsThenFraction, FractionOnly))

  /** `isDecimal` */
  predicate IsDecimal(str: string) {
    Matches(DecimalPattern, str)
  }

  /** `u` has its only point at `p`, digits on both sides, and at least one digit. */
  predicate PointAt(u: string, p: int) {
    0 <= p < |u| && u[p] == '.' && AllIn(Digit, u[..p]) && AllIn(Digit, u[p + 1..]) && |u| > 1
  }

  /** Digits with at most one point and at least one digit. */
  ghost predicate UnsignedDecimal(u: string) {
    (|u| > 0 && AllIn(Digit, u)) || exists p :: PointAt(u, p)
  }

  lemma UnsignedDecimalMeaning(u: string)
    ensures Matches(Alt(DigitsThenFraction, FractionOnly), u) <==> UnsignedDecimal(u)
  {
    PlusThenOptLitStar(Digit, '.', u);
    LitThenPlus(Digit, '.', u);
    if Matches(FractionOnly, u) {
      assert PointAt(u, 0);
    }
    if Matches(DigitsThenFraction, u) && !(|u| > 0 && AllIn(Digit, u)) {
      var k :| 0 < k < |u| && u[k] == '.' && AllIn(Digit, u[..k]) && AllIn(Digit, u[k + 1..]);
      assert PointAt(u, k);
    }
    if exists p :: PointAt(u, p) {
      var p :| PointAt(u, p);
      if p == 0 {
        assert Matches(FractionOnly, u);
      } else {
        assert 0 < p < |u| && u[p] == '.' && AllIn(Digit, u[..p]) && AllIn(Digit, u[p + 1..]);
        assert Matches(DigitsThenFraction, u);
      }
    }
  }

  /** A decimal is an optional sign followed by an unsigned decimal. */
  lemma DecimalMeaning(str: string)
    ensures IsDecimal(str) <==>
      UnsignedDecimal(str) || (|str| > 0 && (str[0] == '+' || str[0] == '-') && UnsignedDecimal(str[1..]))
  {
    CatOptClassFront(AnyOf("+-"), Alt(DigitsThenFraction, FractionOnly), str);
    UnsignedDecimalMeaning(str);
    if |str| > 0 {
      UnsignedDecimalMeaning(str[1..]);
    }
  }

  /** Every integer is a decimal. */
  lemma IntegerIsDecimal(str: string)
    requires IsInteger(str)
    ensures IsDecimal(str)
  {
    IntegerMeaning(str);
    if str == "0" {
      assert AllIn(Digit, str);
    }
    DecimalMeaning(str);
  }

  /** An unsigned decimal is made of digits and points, with at least one digit. */
  lemma UnsignedDecimalCharacters(u: string)
    requires UnsignedDecimal(u)
    ensures forall i :: 0 <= i < |u| ==> Digit.Has(u[i]) || u[i] == '.'
    ensures exists i :: 0 <= i < |u| && Digit.Has(u[i])
  {
    if !(|u| > 0 && AllIn(Digit, u)) {
      var p :| PointAt(u, p);
      forall i | 0 <= i < |u| ensures Digit.Has(u[i]) || u[i] == '.' {
        if i < p {
          assert u[..p][i] == u[i];
        } else if i > p {
          assert u[p + 1..][i - p - 1] == u[i];
        }
      }
      if p > 0 {
        assert u[..p][0] == u[0];
      } else {
        assert u[p + 1..][0] == u[1];
      }
    } else {
      assert Digit.Has(u[0]);
    }
  }

  /**
   * A decimal holds at least one digit, and apart from a leading sign
   * nothing but digits and points.
   */
  lemma DecimalCharacters(str: string)
    ensures IsDecimal(str) ==> exists i :: 0 <= i < |str| && Digit.Has(str[i])
    ensures IsDecimal(str) ==> forall i :: 0 < i < |str| ==> Digit.Has(str[i]) || str[i] == '.'
  {
    DecimalMeaning(str);
    if UnsignedDecimal(str) {
      UnsignedDecimalCharacters(str);
    } else if IsDecimal(str) {
      var u := str[1..];
      UnsignedDecimalCharacters(u);
      var i :| 0 <= i < |u| && Digit.Has(u[i]);
      assert str[i + 1] == u[i];
      forall i | 0 < i < |str| ensures Digit.Has(str[i]) || str[i] == '.' {
        assert str[i] == u[i - 1];
      }
    }
  }

  /** An unsigned decimal is a decimal, with or without a sign in front. */
  lemma SignedDecimals(u: string)
    requires UnsignedDecimal(u)
    ensures IsDecimal(u) && IsDecimal("+" + u) && IsDecimal("-" + u)
  {
    DecimalMeaning(u);
    DecimalMeaning("+" + u);
    DecimalMeaning("-" + u);
    assert ("+" + u)[1..] == u && ("-" + u)[1..] == u;
  }

  /** Digits, a point and digits, with at least one digit: a decimal, and so is its negation. */
  lemma DecimalWithPoint(a: string, b: string)
    requires AllIn(Digit, a) && AllIn(Digit, b) && |a| + |b| > 0
    ensures IsDecimal(a + "." + b) && IsDecimal("-" + (a + "." + b))
  {
    var u := a + "." + b;
    assert u[..|a|] == a && u[|a| + 1..] == b && u[|a|] == '.';
    assert PointAt(u, |a|);
    SignedDecimals(u);
  }

  /** Digits alone: a decimal, and so is their negation. */
  lemma DecimalDigitsOnly(a: string)
    requires |a| > 0 && AllIn(Digit, a)
    ensures IsDecimal(a) && IsDecimal("-" + a)
  {
    SignedDecimals(a);
  }

  /** The documented accepted examples of `isDecimal` without a sign. */
  lemma DecimalAcceptedUnsigned()
    ensures IsDecimal("23.45") && IsDecimal("34.") && IsDecimal(".45") && IsDecimal("23")
  {
    AllInByMembers(Digit, "23");
    AllInByMembers(Digit, "34");
    AllInByMembers(Digit, "45");
    DecimalWithPoint("23", "45");
    assert "23" + "." + "45" == "23.45";
    DecimalWithPoint("34", "");
    assert "34" + "." + "" == "34.";
    DecimalWithPoint("", "45");
    assert "" + "." + "45" == ".45";
    DecimalDigitsOnly("23");
  }

  /** The documented accepted examples of `isDecimal` with a minus sign. */
  lemma DecimalAcceptedSigned()
    ensures IsDecimal("-273.15") && IsDecimal("-42.") && IsDecimal("-.45") && IsDecimal("-42")
  {
    AllInByMembers(Digit, "273");
    AllInByMembers(Digit, "15");
    AllInByMembers(Digit, "42");
    AllInByMembers(Digit, "45");
    DecimalWithPoint("273", "15");
    assert "-" + ("273" + "." + "15") == "-273.15";
    DecimalWithPoint("42", "");
    assert "-" + ("42" + "." + "") == "-42.";
    DecimalWithPoint("", "45");
    assert "-" + ("" + "." + "45") == "-.45";
    DecimalDigitsOnly("42");
    assert "-" + "42" == "-42";
  }

  /** The documented rejected examples of `isDecimal`. */
  lemma DecimalRejected()
    ensures !IsDecimal("-+34") && !IsDecimal("34abc") && !IsDecimal("") && !IsDecimal(".")
  {
    DecimalCharacters("-+34");
    assert !Digit.Has("-+34"[1]);
    DecimalCharacters("34abc");
    assert !Digit.Has("34abc"[2]);
    DecimalCharacters("");
    DecimalCharacters(".");
    assert !Digit.Has("."[0]);
  }

  // ---------------------------------------------------------------------
  // isBoolean, isEqual, contains, isValidStateCode
  // ---------------------------------------------------------------------

  const ValidBooleanValues := ["true", "false", "0", "1", "TRUE", "FALSE", "True", "False"]

  /** `isBoolean`: one of eight fixed spellings. */
  predicate IsBoolean(inputString: string) {
    inputString in ValidBooleanValues
  }

  /** The spellings of `true` lower-case to `true`. */
  lemma LowerTrue(s: string)
    requires s == "true" || s == "TRUE" || s == "True"
    ensures ToLowerCase(s) == "true"
  {
    var l := ToLowerCase(s);
    assert l[0] == 't' && l[1] == 'r' && l[2] == 'u' && l[3] == 'e';
  }

  /** The spellings of `false` lower-case to `false`. */
  lemma LowerFalse(s: string)
    requires s == "false" || s == "FALSE" || s == "False"
    ensures ToLowerCase(s) == "false"
  {
    var l := ToLowerCase(s);
    assert l[0] == 'f' && l[1] == 'a' && l[2] == 'l' && l[3] == 's' && l[4] == 'e';
  }

  /** Of the boolean spellings, only `0` and `1` are binary strings. */
  lemma BooleanBinary(s: string)
    ensures IsBoolean(s) && IsBinaryString(s) <==> s == "0" || s == "1"
  {
    PlusClass(AnyOf("01"), s);
    if IsBoolean(s) && s != "0" && s != "1" {
      assert !AnyOf("01").Has(s[0]);
    }
  }

  /** A boolean spelling is `0`, `1`, or `true`/`false` in some letter case. */
  lemma BooleanMeaning(inputString: string)
    ensures IsBoolean(inputString) ==>
      inputString == "0" || inputString == "1" || ToLowerCase(inputString) in ["true", "false"]
    ensures IsBoolean(inputString) && IsBinaryString(inputString) <==> inputString == "0" || inputString == "1"
    ensures IsBoolean(inputString) ==> 1 <= |inputString| <= 5
  {
    var s := inputString;
    BooleanBinary(s);
    if s == "true" || s == "TRUE" || s == "True" {
      LowerTrue(s);
    } else if s == "false" || s == "FALSE" || s == "False" {
      LowerFalse(s);
    }
  }

  /** The documented examples of `isBoolean`. */
  lemma BooleanExamples()
    ensures IsBoolean("true") && IsBoolean("false") && IsBoolean("TRUE") && IsBoolean("FALSE")
    ensures IsBoolean("True") && IsBoolean("False") && IsBoolean("0") && IsBoolean("1")
    ensures !IsBoolean("yes") && !IsBoolean("no") && !IsBoolean("maybe") && !IsBoolean("") && !IsBoolean("True ")
  {
    BooleanAcceptedWords();
    BooleanAcceptedOthers();
    BooleanRefused();
  }

  /** The documented accepted examples of `isBoolean` in lower and upper case. */
  lemma BooleanAcceptedWords()
    ensures IsBoolean("true") && IsBoolean("false") && IsBoolean("TRUE") && IsBoolean("FALSE")
  {
  }

  /** The documented accepted examples of `isBoolean` with a capital initial, and the digits. */
  lemma BooleanAcceptedOthers()
    ensures IsBoolean("True") && IsBoolean("False") && IsBoolean("0") && IsBoolean("1")
  {
  }

  /** The documented refused examples of `isBoolean`. */
  lemma BooleanRefused()
    ensures !IsBoolean("yes") && !IsBoolean("no") && !IsBoolean("maybe") && !IsBoolean("") && !IsBoolean("True ")
  {
  }

  /** `isEqual`: exact equality, or equality after lower-casing both sides. */
  predicate IsEqual(str: string, comparison: string, caseSensitive: bool := true) {
    if caseSensitive then str == comparison else ToLowerCase(str) == ToLowerCase(comparison)
  }

  /** Case-insensitive equality compares the strings letter by letter, ignoring ASCII case. */
  lemma EqualMeaning(str: string, comparison: string)
    ensures IsEqual(str, comparison, false) <==>
      |str| == |comparison| && forall i :: 0 <= i < |str| ==> LowerChar(str[i]) == LowerChar(comparison[i])
    ensures IsEqual(str, comparison, true) ==> IsEqual(str, comparison, false)
  {
    if |str| == |comparison| && forall i :: 0 <= i < |str| ==> LowerChar(str[i]) == LowerChar(comparison[i]) {
      assert ToLowerCase(str) == ToLowerCase(comparison);
    }
  }

  /** Case-insensitive equality is an equivalence. */
  lemma EqualIsEquivalence(a: string, b: string, c: string, caseSensitive: bool)
    ensures IsEqual(a, a, caseSensitive)
    ensures IsEqual(a, b, caseSensitive) <==> IsEqual(b, a, caseSensitive)
    ensures IsEqual(a, b, caseSensitive) && IsEqual(b, c, caseSensitive) ==> IsEqual(a, c, caseSensitive)
  {
  }

  /** `contains`: `stringContained` occurs in `inputString`, optionally ignoring case. */
  predicate Contains(inputString: string, stringContained: string, caseSensitive: bool := true) {
    if caseSensitive then Includes(inputString, stringContained)
    else Includes(ToLowerCase(inputString), ToLowerCase(stringContained))
  }

  /** Every string contains itself and the empty string, and nothing longer than itself. */
  lemma ContainsBounds(inputString: string, stringContained: string, caseSensitive: bool)
    ensures Contains(inputString, inputString, caseSensitive)
    ensures Contains(inputString, "", caseSensitive)
    ensures |stringContained| > |inputString| ==> !Contains(inputString, stringContained, caseSensitive)
  {
    assert OccursAt(inputString, inputString, 0);
    assert OccursAt(inputString, "", 0);
    var l := ToLowerCase(inputString);
    assert OccursAt(l, l, 0);
    assert OccursAt(l, ToLowerCase(""), 0);
  }

  /** A case-sensitive match is a case-insensitive one, and equal strings contain each other. */
  lemma ContainsCaseSensitiveIsStronger(inputString: string, stringContained: string)
    ensures Contains(inputString, stringContained, true) ==> Contains(inputString, stringContained, false)
    ensures IsEqual(inputString, stringContained, false) ==> Contains(inputString, stringContained, false)
  {
    var l, n := ToLowerCase(inputString), ToLowerCase(stringContained);
    if Contains(inputString, stringContained, true) {
      var i: nat :| i <= |inputString| && OccursAt(inputString, stringContained, i);
      forall t | 0 <= t < |n| ensures l[i + t] == n[t] {
        assert inputString[i..i + |stringContained|][t] == stringContained[t];
      }
      assert OccursAt(l, n, i);
    }
    if IsEqual(inputString, stringContained, false) {
      assert OccursAt(l, n, 0);
    }
  }

  /** The documented examples of `contains`. */
  lemma ContainsExamples()
    ensures Contains("Hello World", "World") && Contains("abcdef", "bcd") && Contains("ExactMatch", "ExactMatch")
    ensures !Contains("Hello World", "world") && !Contains("JavaScript", "Python")
    ensures !Contains("", "Hello") && !Contains("Short", "ShorterThanInput")
    ensures Contains("Hello World", "world", false) && Contains("ExactMatch", "exactmatch", false)
    ensures Contains("abcdef", "BCD", false)
  {
    ContainsIgnoringCaseExamples();
    assert OccursAt("Hello World", "World", 6);
    assert OccursAt("abcdef", "bcd", 1);
    ContainsBounds("ExactMatch", "ExactMatch", true);
    NotIncludedFirstChar("Hello World", "world");
    NotIncludedFirstChar("JavaScript", "Python");
    ContainsBounds("", "Hello", true);
    ContainsBounds("Short", "ShorterThanInput", true);
  }

  /** The documented examples of `contains` with `caseSensitive` false. */
  lemma ContainsIgnoringCaseExamples()
    ensures Contains("Hello World", "world", false) && Contains("ExactMatch", "exactmatch", false)
    ensures Contains("abcdef", "BCD", false)
  {
    ContainsIgnoringCase("Hello World", "world", "hello world", "world", 6);
    ContainsIgnoringCase("ExactMatch", "exactmatch", "exactmatch", "exactmatch", 0);
    ContainsIgnoringCase("abcdef", "BCD", "abcdef", "bcd", 1);
  }

  /** Containment without regard to case, read off the lower-cased strings. */
  lemma ContainsIgnoringCase(s: string, t: string, ls: string, lt: string, k: nat)
    requires ToLowerCase(s) == ls && ToLowerCase(t) == lt && OccursAt(ls, lt, k)
    ensures Contains(s, t, false)
  {
  }

  /** The fifty two-letter codes of the US states. */
  const ValidStateCodes :=
    ["AL", "AK", "AZ", "AR", "CA", "CO", "CT", "DE", "FL", "GA"] +
    ["HI", "ID", "IL", "IN", "IA", "KS", "KY", "LA", "ME", "MD"] +
    ["MA", "MI", "MN", "MS", "MO", "MT", "NE", "NV", "NH", "NJ"] +
    ["NM", "NY", "NC", "ND", "OH", "OK", "OR", "PA", "RI", "SC"] +
    ["SD", "TN", "TX", "UT", "VT", "VA", "WA", "WV", "WI", "WY"]

  /** `isValidStateCode`: exact, case-sensitive membership in the list. */
  predicate IsValidStateCode(inputString: string) {
    inputString in ValidStateCodes
  }

  /** Two letters from `A` to `Z`. */
  predicate IsTwoCapitals(s: string) {
    |s| == 2 && 'A' <= s[0] <= 'Z' && 'A' <= s[1] <= 'Z'
  }

  /** Every state code is two letters from `A` to `Z`, shown row by row of the list. */
  lemma StateCodeShape(s: string)
    requires IsValidStateCode(s)
    ensures |s| == 2 && 'A' <= s[0] <= 'Z' && 'A' <= s[1] <= 'Z'
  {
    if s in ["AL", "AK", "AZ", "AR", "CA", "CO", "CT", "DE", "FL", "GA"] {
      StateRow1Shape(s);
    } else if s in ["HI", "ID", "IL", "IN", "IA", "KS", "KY", "LA", "ME", "MD"] {
      StateRow2Shape(s);
    } else if s in ["MA", "MI", "MN", "MS", "MO", "MT", "NE", "NV", "NH", "NJ"] {
      StateRow3Shape(s);
    } else if s in ["NM", "NY", "NC", "ND", "OH", "OK", "OR", "PA", "RI", "SC"] {
      StateRow4Shape(s);
    } else {
      StateRow5Shape(s);
    }
  }

  /** Row 1 of the list: AL to GA. */
  lemma StateRow1Shape(s: string)
    requires s in ["AL", "AK", "AZ", "AR", "CA", "CO", "CT", "DE", "FL", "GA"]
    ensures IsTwoCapitals(s)
  {
    assert s == "AL" || s == "AK" || s == "AZ" || s == "AR" || s == "CA" || s == "CO" || s == "CT" || s == "DE" || s == "FL" || s == "GA";
  }

  /** Row 2 of the list: HI to MD. */
  lemma StateRow2Shape(s: string)
    requires s in ["HI", "ID", "IL", "IN", "IA", "KS", "KY", "LA", "ME", "MD"]
    ensures IsTwoCapitals(s)
  {
    assert s == "HI" || s == "ID" || s == "IL" || s == "IN" || s == "IA" || s == "KS" || s == "KY" || s == "LA" || s == "ME" || s == "MD";
  }

  /** Row 3 of the list: MA to NJ. */
  lemma StateRow3Shape(s: string)
    requires s in ["MA", "MI", "MN", "MS", "MO", "MT", "NE", "NV", "NH", "NJ"]
    ensures IsTwoCapitals(s)
  {
    assert s == "MA" || s == "MI" || s == "MN" || s == "MS" || s == "MO" || s == "MT" || s == "NE" || s == "NV" || s == "NH" || s == "NJ";
  }

  /** Row 4 of the list: NM to SC. */
  lemma StateRow4Shape(s: string)
    requires s in ["NM", "NY", "NC", "ND", "OH", "OK", "OR", "PA", "RI", "SC"]
    ensures IsTwoCapitals(s)
  {
    assert s == "NM" || s == "NY" || s == "NC" || s == "ND" || s == "OH" || s == "OK" || s == "OR" || s == "PA" || s == "RI" || s == "SC";
  }

  /** Row 5 of the list: SD to WY. */
  lemma StateRow5Shape(s: string)
    requires s in ["SD", "TN", "TX", "UT", "VT", "VA", "WA", "WV", "WI", "WY"]
    ensures IsTwoCapitals(s)
  {
    assert s == "SD" || s == "TN" || s == "TX" || s == "UT" || s == "VT" || s == "VA" || s == "WA" || s == "WV" || s == "WI" || s == "WY";
  }

  /** Every state code is two capital letters, so `isAllCaps` accepts it. */
  lemma StateCodeIsTwoCapitals(inputString: string)
    ensures IsValidStateCode(inputString) ==> |inputString| == 2 && IsAllCaps(inputString)
  {
    ClassValidatorsMeaning(inputString);
    if IsValidStateCode(inputString) {
      StateCodeShape(inputString);
    }
  }

  /** The tested examples of `isValidStateCode`, and the lower-case "la", which fails. */
  lemma StateCodeExamples()
    ensures IsValidStateCode("LA") && IsValidStateCode("NY") && IsValidStateCode("FL")
    ensures !IsValidStateCode("LAX") && !IsValidStateCode("NY1") && !IsValidStateCode("FL?")
    ensures !IsValidStateCode("") && !IsValidStateCode("la")
  {
    StateCodeIsTwoCapitals("LAX");
    StateCodeIsTwoCapitals("NY1");
    StateCodeIsTwoCapitals("FL?");
    StateCodeIsTwoCapitals("");
    StateCodeIsTwoCapitals("la");
    ClassValidatorsMeaning("la");
  }

  // ---------------------------------------------------------------------
  // isPhoneNumber
  // ---------------------------------------------------------------------

  /** `[-\s.]` */
  const PhoneSeparator := Union(AnyOf("-."), Space)

  /** `[0-9]{3}[-\s.]?[0-9]{4}`: the last seven digits. */
  const PhoneTail := Cat(Rep(Class(Digit), 3), Cat(Opt(Class(PhoneSeparator)), Rep(Class(Digit), 4)))

  /** `[+]?[(]?[0-9]{3}[)]?[-\s.]?[0-9]{3}[-\s.]?[0-9]{4}`; the `i` flag changes nothing here. */
  const PhonePattern :=
    Cat(Opt(Lit('+')), Cat(Opt(Lit('(')), Cat(Rep(Class(Digit), 3),
      Cat(Opt(Lit(')')), Cat(Opt(Class(PhoneSeparator)), PhoneTail)))))

  /** `isPhoneNumber`: under the `m` flag, the pattern spans from a line start to a line end. */
  predicate IsPhoneNumber(str: string) {
    TestMultiline(PhonePattern, str)
  }

  /** Every match of the phone pattern holds exactly ten digits. */
  lemma PhoneMatchHasTenDigits(s: string)
    requires Matches(PhonePattern, s)
    ensures Count(Digit, s) == 10
  {
    PhonePatternDigits();
    CountOfMatch(Digit, PhonePattern, s);
  }

  /** The phone pattern fixes ten digits: three, three and four. */
  lemma PhonePatternDigits()
    ensures CountIn(Digit, PhonePattern) == Some(10)
  {
    var sep := Opt(Class(PhoneSeparator));
    PhoneTailDigits();
    var rest := Cat(Opt(Lit(')')), Cat(sep, PhoneTail));
    PhoneRestDigits();
    assert CountIn(Digit, Cat(Rep(Class(Digit), 3), rest)) == Some(10);
    assert CountIn(Digit, Cat(Opt(Lit('(')), Cat(Rep(Class(Digit), 3), rest))) == Some(10);
  }

  /** After the area code, the pattern fixes seven digits. */
  lemma PhoneRestDigits()
    ensures CountIn(Digit, Cat(Opt(Lit(')')), Cat(Opt(Class(PhoneSeparator)), PhoneTail))) == Some(7)
  {
    PhoneTailDigits();
  }

  /** The last seven digits of a phone number, and no separator, count as digits. */
  lemma PhoneTailDigits()
    ensures CountIn(Digit, Opt(Class(PhoneSeparator))) == Some(0)
    ensures CountIn(Digit, PhoneTail) == Some(7)
  {
    assert Disjoint(PhoneSeparator, Digit);
    var sep := Opt(Class(PhoneSeparator));
    assert CountIn(Digit, Rep(Class(Digit), 4)) == Some(4);
    assert CountIn(Digit, Cat(sep, Rep(Class(Digit), 4))) == Some(4);
    assert CountIn(Digit, Rep(Class(Digit), 3)) == Some(3);
  }

  /** A string accepted by `isPhoneNumber` holds at least ten digits. */
  lemma PhoneNeedsTenDigits(str: string)
    ensures IsPhoneNumber(str) ==> Count(Digit, str) >= 10
  {
    if IsPhoneNumber(str) {
      var i: nat, j: nat :| i <= j <= |str| && LineStart(str, i) && LineEnd(str, j) && Matches(PhonePattern, str[i..j]);
      PhoneMatchHasTenDigits(str[i..j]);
      CountOfInfix(Digit, str, i, j);
    }
  }

  /** On a single line, `isPhoneNumber` is a match of the whole string. */
  lemma PhoneSingleLine(str: string)
    requires forall i :: 0 <= i < |str| ==> !IsLineTerminator(str[i])
    ensures IsPhoneNumber(str) <==> Matches(PhonePattern, str)
  {
    TestMultilineSingleLine(PhonePattern, str);
  }

  /** The only characters the last seven digits admit: digits and separators. */
  lemma PhoneTailAdmits(c: char)
    requires Admits(PhoneTail, c)
    ensures Digit.Has(c) || PhoneSeparator.Has(c)
  {
    AdmitsRep(Class(Digit), 3, c);
    AdmitsRep(Class(Digit), 4, c);
    var sep := Opt(Class(PhoneSeparator));
    assert Admits(sep, c) == PhoneSeparator.Has(c);
    assert Admits(PhoneTail, c) ==
      (Admits(Rep(Class(Digit), 3), c) || Admits(sep, c) || Admits(Rep(Class(Digit), 4), c));
  }

  /** The only characters the phone pattern admits. */
  lemma PhoneAdmits(c: char)
    requires Admits(PhonePattern, c)
    ensures Digit.Has(c) || c in "+()" || PhoneSeparator.Has(c)
  {
    AdmitsRep(Class(Digit), 3, c);
    var sep := Opt(Class(PhoneSeparator));
    var rest4 := Cat(sep, PhoneTail);
    var rest3 := Cat(Opt(Lit(')')), rest4);
    var rest2 := Cat(Rep(Class(Digit), 3), rest3);
    var rest1 := Cat(Opt(Lit('(')), rest2);
    assert Admits(Opt(Lit('+')), c) == (c == '+');
    assert Admits(Opt(Lit('(')), c) == (c == '(');
    assert Admits(Opt(Lit(')')), c) == (c == ')');
    assert Admits(PhonePattern, c) == (c == '+' || Admits(rest1, c));
    assert Admits(rest1, c) == (c == '(' || Admits(rest2, c));
    assert Admits(rest2, c) == (Admits(Rep(Class(Digit), 3), c) || Admits(rest3, c));
    assert Admits(rest3, c) == (c == ')' || Admits(rest4, c));
    assert Admits(rest4, c) == (PhoneSeparator.Has(c) || Admits(PhoneTail, c));
    if Admits(PhoneTail, c) {
      PhoneTailAdmits(c);
    }
  }

  /** A separator is `-`, `.` or white space. */
  lemma PhoneSeparatorMeaning(c: char)
    ensures PhoneSeparator.Has(c) <==> c == '-' || c == '.' || IsWhitespace(c)
  {
    assert AnyOf("-.").Has(c) <==> c in "-.";
  }

  /** A match holds only digits, `+`, `(`, `)`, `-`, `.` and white space. */
  lemma PhoneCharacters(s: string)
    requires Matches(PhonePattern, s)
    ensures forall i :: 0 <= i < |s| ==>
      Digit.Has(s[i]) || s[i] in "+()-." || IsWhitespace(s[i])
  {
    MatchOnlyAdmitted(PhonePattern, s);
    forall i | 0 <= i < |s| ensures Digit.Has(s[i]) || s[i] in "+()-." || IsWhitespace(s[i]) {
      PhoneAdmits(s[i]);
      PhoneSeparatorMeaning(s[i]);
    }
  }

  /** `[-\s.]?[0-9]{4}`: four digits, possibly after one separator. */
  lemma SepFourMeaning(u: string)
    ensures Matches(Cat(Opt(Class(PhoneSeparator)), Rep(Class(Digit), 4)), u) <==>
      (|u| == 4 && AllIn(Digit, u)) || (|u| == 5 && PhoneSeparator.Has(u[0]) && AllIn(Digit, u[1..]))
  {
    WidthOfRep(Class(Digit), 4);
    CatFixedBack(Opt(Class(PhoneSeparator)), Rep(Class(Digit), 4), u);
    if |u| >= 4 {
      SepFourAt(u, |u| - 4);
    }
  }

  /** The cut four characters from the end of `[-\s.]?[0-9]{4}`. */
  lemma SepFourAt(u: string, k: nat)
    requires k + 4 == |u|
    ensures Matches(Opt(Class(PhoneSeparator)), u[..k]) && Matches(Rep(Class(Digit), 4), u[k..]) <==>
      (k == 0 && AllIn(Digit, u)) || (k == 1 && PhoneSeparator.Has(u[0]) && AllIn(Digit, u[1..]))
  {
    OptClassMeaning(PhoneSeparator, u[..k]);
    RepClass(Digit, 4, u[k..]);
    if k == 1 {
      assert u[..1] == [u[0]];
    }
    if k == 0 {
      assert u[..0] == [] && u[0..] == u;
    }
  }

  /** The last seven digits: three, an optional separator, and four. */
  lemma PhoneTailMeaning(t: string)
    ensures Matches(PhoneTail, t) <==>
      (|t| == 7 && AllIn(Digit, t)) ||
      (|t| == 8 && AllIn(Digit, t[..3]) && PhoneSeparator.Has(t[3]) && AllIn(Digit, t[4..]))
  {
    var d := Class(Digit);
    WidthOfRep(d, 3);
    CatFixedFront(Rep(d, 3), Cat(Opt(Class(PhoneSeparator)), Rep(d, 4)), t);
    if |t| >= 3 {
      RepClass(Digit, 3, t[..3]);
      SepFourMeaning(t[3..]);
      AllInCut(Digit, t, 3);
      if |t| == 8 {
        assert t[3..][0] == t[3] && t[3..][1..] == t[4..];
      }
    }
  }

  /** Every match of the phone pattern ends with the last seven digits, possibly split once. */
  lemma PhoneMatchTail(s: string)
    requires Matches(PhonePattern, s)
    ensures exists k :: 0 <= k <= |s| && Matches(PhoneTail, s[k..])
  {
    var rest4 := Cat(Opt(Class(PhoneSeparator)), PhoneTail);
    var rest3 := Cat(Opt(Lit(')')), rest4);
    var rest2 := Cat(Rep(Class(Digit), 3), rest3);
    var rest1 := Cat(Opt(Lit('(')), rest2);
    assert s[0..] == s;
    SuffixOfCat(Opt(Lit('+')), rest1, s);
    SuffixOfCat(Opt(Lit('(')), rest2, s);
    SuffixOfCat(Rep(Class(Digit), 3), rest3, s);
    SuffixOfCat(Opt(Lit(')')), rest4, s);
    SuffixOfCat(Opt(Class(PhoneSeparator)), PhoneTail, s);
  }

  /** A string that ends with anything but a phone-number tail is not matched. */
  lemma PhoneRejectsTail(s: string)
    requires forall k :: 0 <= k <= |s| ==> !Matches(PhoneTail, s[k..])
    ensures !Matches(PhonePattern, s)
  {
    if Matches(PhonePattern, s) {
      PhoneMatchTail(s);
    }
  }

  /**
   * The pieces of a phone number: an optional `+`, an optional `(`, three
   * digits, an optional `)`, an optional separator, three digits, an
   * optional separator and four digits.
   */
  predicate PhoneParts(plus: string, open: string, area: string, close: string,
                       sep1: string, exchange: string, sep2: string, line: string)
  {
    && (plus == "" || plus == "+")
    && (open == "" || open == "(")
    && |area| == 3 && AllIn(Digit, area)
    && (close == "" || close == ")")
    && |sep1| <= 1 && AllIn(PhoneSeparator, sep1)
    && |exchange| == 3 && AllIn(Digit, exchange)
    && |sep2| <= 1 && AllIn(PhoneSeparator, sep2)
    && |line| == 4 && AllIn(Digit, line)
  }

  /** Concatenation regrouped from the right to the left. */
  lemma RegroupEight(a: string, b: string, c: string, d: string, e: string, f: string, g: string, h: string)
    ensures a + (b + (c + (d + (e + (f + (g + h)))))) == a + b + c + d + e + f + g + h
  {
  }

  /** Any choice of pieces makes a string the phone pattern matches. */
  lemma PhoneFromParts(plus: string, open: string, area: string, close: string,
                       sep1: string, exchange: string, sep2: string, line: string)
    requires PhoneParts(plus, open, area, close, sep1, exchange, sep2, line)
    ensures Matches(PhonePattern, plus + open + area + close + sep1 + exchange + sep2 + line)
  {
    var d := Class(Digit);
    var sep := Opt(Class(PhoneSeparator));
    var rest4 := Cat(sep, PhoneTail);
    var rest3 := Cat(Opt(Lit(')')), rest4);
    var rest2 := Cat(Rep(d, 3), rest3);
    var rest1 := Cat(Opt(Lit('(')), rest2);
    var t6 := sep2 + line;
    assert Matches(Cat(sep, Rep(d, 4)), t6) by {
      OptClassMeaning(PhoneSeparator, sep2);
      RepClass(Digit, 4, line);
      CatIntro(sep, Rep(d, 4), sep2, line);
    }
    var t5 := exchange + t6;
    assert Matches(PhoneTail, t5) by {
      RepClass(Digit, 3, exchange);
      CatIntro(Rep(d, 3), Cat(sep, Rep(d, 4)), exchange, t6);
    }
    var t4 := sep1 + t5;
    assert Matches(rest4, t4) by {
      OptClassMeaning(PhoneSeparator, sep1);
      CatIntro(sep, PhoneTail, sep1, t5);
    }
    var t3 := close + t4;
    assert Matches(rest3, t3) by {
      OptLitMeaning(')', close);
      CatIntro(Opt(Lit(')')), rest4, close, t4);
    }
    var t2 := area + t3;
    assert Matches(rest2, t2) by {
      RepClass(Digit, 3, area);
      CatIntro(Rep(d, 3), rest3, area, t3);
    }
    var t1 := open + t2;
    assert Matches(rest1, t1) by {
      OptLitMeaning('(', open);
      CatIntro(Opt(Lit('(')), rest2, open, t2);
    }
    assert Matches(PhonePattern, plus + t1) by {
      OptLitMeaning('+', plus);
      CatIntro(Opt(Lit('+')), rest1, plus, t1);
    }
    RegroupEight(plus, open, area, close, sep1, exchange, sep2, line);
  }

  /** A match of the last seven digits is three digits, an optional separator and four digits. */
  lemma PhoneTailToParts(t: string)
    requires Matches(PhoneTail, t)
    ensures exists exchange, sep2, line ::
      |exchange| == 3 && AllIn(Digit, exchange) && |sep2| <= 1 && AllIn(PhoneSeparator, sep2) &&
      |line| == 4 && AllIn(Digit, line) && t == exchange + (sep2 + line)
  {
    var d := Class(Digit);
    var sep := Opt(Class(PhoneSeparator));
    CatSplit(Rep(d, 3), Cat(sep, Rep(d, 4)), t);
    var exchange, r6 :| t == exchange + r6 && Matches(Rep(d, 3), exchange) && Matches(Cat(sep, Rep(d, 4)), r6);
    CatSplit(sep, Rep(d, 4), r6);
    var sep2, line :| r6 == sep2 + line && Matches(sep, sep2) && Matches(Rep(d, 4), line);
    OptClassMeaning(PhoneSeparator, sep2);
    RepClass(Digit, 3, exchange);
    RepClass(Digit, 4, line);
  }

  /** Every match of the phone pattern is made of such pieces. */
  lemma PhoneToParts(s: string)
    requires Matches(PhonePattern, s)
    ensures exists plus, open, area, close, sep1, exchange, sep2, line ::
      PhoneParts(plus, open, area, close, sep1, exchange, sep2, line) &&
      s == plus + open + area + close + sep1 + exchange + sep2 + line
  {
    PhoneHeadSplit(s);
    var plus, open, area, close, sep1, tail :|
      PhoneHead(plus, open, area, close, sep1) && Matches(PhoneTail, tail) &&
      s == plus + (open + (area + (close + (sep1 + tail))));
    PhoneTailToParts(tail);
    var exchange, sep2, line :|
      |exchange| == 3 && AllIn(Digit, exchange) && |sep2| <= 1 && AllIn(PhoneSeparator, sep2) &&
      |line| == 4 && AllIn(Digit, line) && tail == exchange + (sep2 + line);
    RegroupEight(plus, open, area, close, sep1, exchange, sep2, line);
    assert PhoneParts(plus, open, area, close, sep1, exchange, sep2, line);
  }

  /** The pieces of a phone number before its last seven digits. */
  predicate PhoneHead(plus: string, open: string, area: string, close: string, sep1: string) {
    && (plus == "" || plus == "+")
    && (open == "" || open == "(")
    && |area| == 3 && AllIn(Digit, area)
    && (close == "" || close == ")")
    && |sep1| <= 1 && AllIn(PhoneSeparator, sep1)
  }

  /** Every match of the phone pattern is a head of such pieces, then a match of the last seven digits. */
  lemma PhoneHeadSplit(s: string)
    requires Matches(PhonePattern, s)
    ensures exists plus, open, area, close, sep1, tail ::
      PhoneHead(plus, open, area, close, sep1) && Matches(PhoneTail, tail) &&
      s == plus + (open + (area + (close + (sep1 + tail))))
  {
    var rest2 := Cat(Rep(Class(Digit), 3), Cat(Opt(Lit(')')), Cat(Opt(Class(PhoneSeparator)), PhoneTail)));
    OptLitCut('+', Cat(Opt(Lit('(')), rest2), s);
    var plus, r1 :| s == plus + r1 && (plus == [] || plus == ['+']) && Matches(Cat(Opt(Lit('(')), rest2), r1);
    OptLitCut('(', rest2, r1);
    var open, r2 :| r1 == open + r2 && (open == [] || open == ['(']) && Matches(rest2, r2);
    PhoneAreaSplit(r2);
    var area, close, sep1, tail :|
      |area| == 3 && AllIn(Digit, area) && (close == [] || close == [')']) &&
      |sep1| <= 1 && AllIn(PhoneSeparator, sep1) && Matches(PhoneTail, tail) &&
      r2 == area + (close + (sep1 + tail));
    assert PhoneHead(plus, open, area, close, sep1);
  }

  /** From the area code on: three digits, an optional `)`, an optional separator, then the last seven digits. */
  lemma PhoneAreaSplit(r: string)
    requires Matches(Cat(Rep(Class(Digit), 3), Cat(Opt(Lit(')')), Cat(Opt(Class(PhoneSeparator)), PhoneTail))), r)
    ensures exists area, close, sep1, tail ::
      |area| == 3 && AllIn(Digit, area) && (close == [] || close == [')']) &&
      |sep1| <= 1 && AllIn(PhoneSeparator, sep1) && Matches(PhoneTail, tail) &&
      r == area + (close + (sep1 + tail))
  {
    var rest4 := Cat(Opt(Class(PhoneSeparator)), PhoneTail);
    RepClassCut(Digit, 3, Cat(Opt(Lit(')')), rest4), r);
    var area, r3 :| r == area + r3 && |area| == 3 && AllIn(Digit, area) && Matches(Cat(Opt(Lit(')')), rest4), r3);
    OptLitCut(')', rest4, r3);
    var close, r4 :| r3 == close + r4 && (close == [] || close == [')']) && Matches(rest4, r4);
    OptClassCut(PhoneSeparator, PhoneTail, r4);
    var sep1, tail :| r4 == sep1 + tail && |sep1| <= 1 && AllIn(PhoneSeparator, sep1) && Matches(PhoneTail, tail);
  }

  /** A match of the whole string is accepted, whatever the line breaks. */
  lemma PhoneMatchAccepted(str: string)
    requires Matches(PhonePattern, str)
    ensures IsPhoneNumber(str)
  {
    assert LineStart(str, 0) && LineEnd(str, |str|) && str[0..|str|] == str;
  }

  /** On a single line, `isPhoneNumber` holds exactly for strings made of phone-number pieces. */
  lemma PhoneMeaning(str: string)
    requires forall i :: 0 <= i < |str| ==> !IsLineTerminator(str[i])
    ensures IsPhoneNumber(str) <==>
      exists plus, open, area, close, sep1, exchange, sep2, line ::
        PhoneParts(plus, open, area, close, sep1, exchange, sep2, line) &&
        str == plus + open + area + close + sep1 + exchange + sep2 + line
  {
    PhoneSingleLine(str);
    if Matches(PhonePattern, str) {
      PhoneToParts(str);
    }
    if exists plus, open, area, close, sep1, exchange, sep2, line ::
        PhoneParts(plus, open, area, close, sep1, exchange, sep2, line) &&
        str == plus + open + area + close + sep1 + exchange + sep2 + line {
      var plus, open, area, close, sep1, exchange, sep2, line :|
        PhoneParts(plus, open, area, close, sep1, exchange, sep2, line) &&
        str == plus + open + area + close + sep1 + exchange + sep2 + line;
      PhoneFromParts(plus, open, area, close, sep1, exchange, sep2, line);
    }
  }

  /**
   * A match ends with four digits, after either three more digits or a
   * separator and three more digits.
   */
  lemma PhoneEnding(s: string)
    ensures Matches(PhonePattern, s) ==> |s| >= 7 && AllIn(Digit, s[|s| - 4..])
    ensures Matches(PhonePattern, s) ==> (AllIn(Digit, s[|s| - 7..|s| - 4]) ||
      (|s| >= 8 && PhoneSeparator.Has(s[|s| - 5]) && AllIn(Digit, s[|s| - 8..|s| - 5])))
  {
    if Matches(PhonePattern, s) {
      PhoneMatchTail(s);
      var k :| 0 <= k <= |s| && Matches(PhoneTail, s[k..]);
      PhoneTailEnding(s, k);
    }
  }

  lemma PhoneTailEnding(s: string, k: nat)
    requires k <= |s| && Matches(PhoneTail, s[k..])
    ensures |s| >= 7 && AllIn(Digit, s[|s| - 4..])
    ensures AllIn(Digit, s[|s| - 7..|s| - 4]) ||
      (|s| >= 8 && PhoneSeparator.Has(s[|s| - 5]) && AllIn(Digit, s[|s| - 8..|s| - 5]))
  {
    var t := s[k..];
    PhoneTailMeaning(t);
    var n := |s|;
    assert s[n - 4..] == t[|t| - 4..];
    if |t| == 7 {
      assert s[n - 7..n - 4] == t[..3];
      assert AllIn(Digit, t[..3]) && AllIn(Digit, t[3..]);
    } else {
      assert s[n - 5] == t[3];
      assert s[n - 8..n - 5] == t[..3];
    }
  }

  /** A string of phone-number pieces is accepted. */
  lemma PhoneAcceptsParts(plus: string, open: string, area: string, close: string,
                          sep1: string, exchange: string, sep2: string, line: string)
    requires PhoneParts(plus, open, area, close, sep1, exchange, sep2, line)
    ensures IsPhoneNumber(plus + open + area + close + sep1 + exchange + sep2 + line)
  {
    PhoneFromParts(plus, open, area, close, sep1, exchange, sep2, line);
    PhoneMatchAccepted(plus + open + area + close + sep1 + exchange + sep2 + line);
  }

  /** The digit groups of the documented examples. */
  lemma ExampleDigitGroups()
    ensures AllIn(Digit, "123") && AllIn(Digit, "456") && AllIn(Digit, "7890")
  {
    AllInByMembers(Digit, "123");
    AllInByMembers(Digit, "456");
    AllInByMembers(Digit, "7890");
  }

  /** The separators of the documented examples, each alone or absent. */
  lemma ExampleSeparators(sep: string)
    requires sep in ["", "-", ".", " "]
    ensures |sep| <= 1 && AllIn(PhoneSeparator, sep)
  {
    AllInByMembers(PhoneSeparator, sep);
  }

  /** The documented examples: `123`, `456` and `7890` with the given decorations. */
  lemma PhoneAcceptsExample(str: string, plus: string, open: string, close: string, sep1: string, sep2: string)
    requires plus in ["", "+"] && open in ["", "("] && close in ["", ")"]
    requires sep1 in ["", "-", ".", " "] && sep2 in ["", "-", ".", " "]
    requires str == plus + open + "123" + close + sep1 + "456" + sep2 + "7890"
    ensures IsPhoneNumber(str)
  {
    ExampleDigitGroups();
    ExampleSeparators(sep1);
    ExampleSeparators(sep2);
    PhoneAcceptsParts(plus, open, "123", close, sep1, "456", sep2, "7890");
  }

  /** Documented accepted example of `isPhoneNumber`: hyphens. */
  lemma PhoneAcceptsHyphens(str: string)
    requires str == "123-456-7890"
    ensures IsPhoneNumber(str)
  {
    assert str == "" + "" + "123" + "" + "-" + "456" + "-" + "7890";
    PhoneAcceptsExample(str, "", "", "", "-", "-");
  }

  /** Documented accepted example of `isPhoneNumber`: dots. */
  lemma PhoneAcceptsDots(str: string)
    requires str == "123.456.7890"
    ensures IsPhoneNumber(str)
  {
    assert str == "" + "" + "123" + "" + "." + "456" + "." + "7890";
    PhoneAcceptsExample(str, "", "", "", ".", ".");
  }

  /** Documented accepted example of `isPhoneNumber`: an area code in parentheses. */
  lemma PhoneAcceptsParentheses(str: string)
    requires str == "(123) 456-7890"
    ensures IsPhoneNumber(str)
  {
    assert str == "" + "(" + "123" + ")" + " " + "456" + "-" + "7890";
    PhoneAcceptsExample(str, "", "(", ")", " ", "-");
  }

  /** Documented accepted example of `isPhoneNumber`: spaces. */
  lemma PhoneAcceptsSpaces(str: string)
    requires str == "123 456 7890"
    ensures IsPhoneNumber(str)
  {
    assert str == "" + "" + "123" + "" + " " + "456" + " " + "7890";
    PhoneAcceptsExample(str, "", "", "", " ", " ");
  }

  /** Documented accepted example of `isPhoneNumber`: a leading `+` and hyphens. */
  lemma PhoneAcceptsPlusHyphens(str: string)
    requires str == "+123-456-7890"
    ensures IsPhoneNumber(str)
  {
    assert str == "+" + "" + "123" + "" + "-" + "456" + "-" + "7890";
    PhoneAcceptsExample(str, "+", "", "", "-", "-");
  }

  /** Documented accepted example of `isPhoneNumber`: a leading `+` and dots. */
  lemma PhoneAcceptsPlusDots(str: string)
    requires str == "+123.456.7890"
    ensures IsPhoneNumber(str)
  {
    assert str == "+" + "" + "123" + "" + "." + "456" + "." + "7890";
    PhoneAcceptsExample(str, "+", "", "", ".", ".");
  }

  /** Documented accepted example of `isPhoneNumber`: a leading `+` and no separators. */
  lemma PhoneAcceptsPlusDigits(str: string)
    requires str == "+1234567890"
    ensures IsPhoneNumber(str)
  {
    assert str == "+" + "" + "123" + "" + "" + "456" + "" + "7890";
    PhoneAcceptsExample(str, "+", "", "", "", "");
  }

  /** Documented accepted example of `isPhoneNumber`: ten digits and nothing else. */
  lemma PhoneAcceptsDigits(str: string)
    requires str == "1234567890"
    ensures IsPhoneNumber(str)
  {
    assert str == "" + "" + "123" + "" + "" + "456" + "" + "7890";
    PhoneAcceptsExample(str, "", "", "", "", "");
  }

  /** Rejected examples of `isPhoneNumber` with fewer than ten digits: two tested ones and "123". */
  lemma PhoneRejectsShort()
    ensures !IsPhoneNumber("123456789") && !IsPhoneNumber("123") && !IsPhoneNumber("hello world")
  {
    assert !IsPhoneNumber("123456789") by {
      PhoneNeedsTenDigits("123456789");
      CountAtMost(Digit, "123456789");
    }
    assert !IsPhoneNumber("123") by {
      PhoneNeedsTenDigits("123");
      CountAtMost(Digit, "123");
    }
    assert !IsPhoneNumber("hello world") by {
      PhoneNeedsTenDigits("hello world");
      CountNoneByMembers(Digit, "hello world");
    }
  }

  /** A string with fewer than ten digits is no phone number. */
  lemma PhoneRejectsFewDigits(str: string, k: nat)
    requires k <= |str| && Count(Digit, str[..k]) + |str| - k < 10
    ensures !IsPhoneNumber(str)
  {
    PhoneNeedsTenDigits(str);
    CountAtMost(Digit, str[k..]);
    CountConcat(Digit, str[..k], str[k..]);
    assert str[..k] + str[k..] == str;
  }

  /** Documented rejected examples of `isPhoneNumber`: letters before the digits. */
  lemma PhoneRejectsLeadingLetters(str: string)
    requires str == "test123"
    ensures !IsPhoneNumber(str)
  {
    assert str[..4] == "test";
    CountNoneByMembers(Digit, str[..4]);
    PhoneRejectsFewDigits(str, 4);
  }

  lemma PhoneRejectsLeadingLettersAndHyphens(str: string)
    requires str == "abc-456-7890"
    ensures !IsPhoneNumber(str)
  {
    assert str[..4] == "abc-";
    CountNoneByMembers(Digit, str[..4]);
    PhoneRejectsFewDigits(str, 4);
  }

  /** Documented rejected example of `isPhoneNumber`: letters among the digits. */
  lemma PhoneRejectsInnerLetters(str: string)
    requires str == "12345abc678"
    ensures !IsPhoneNumber(str)
  {
    var front := str[..8];
    assert front == "12345" + "abc";
    CountAtMost(Digit, "12345");
    CountNoneByMembers(Digit, "abc");
    CountConcat(Digit, "12345", "abc");
    PhoneRejectsFewDigits(str, 8);
  }

  /** Documented rejected example of `isPhoneNumber`: digits grouped 3-2-4. */
  lemma PhoneRejectsNineDigits()
    ensures !IsPhoneNumber("123-45-6789")
  {
    var s := "123-45-6789";
    SingleLineByMembers(s);
    PhoneSingleLine(s);
    PhoneEnding(s);
    assert s[4..7] == "45-" && !Digit.Has("45-"[2]);
    assert s[3..6] == "-45" && !Digit.Has("-45"[0]);
  }

  /** Documented rejected example of `isPhoneNumber`: ten digits grouped 3-2-5. */
  lemma PhoneRejectsBadGrouping()
    ensures !IsPhoneNumber("123-45-67890")
  {
    var s := "123-45-67890";
    SingleLineByMembers(s);
    PhoneSingleLine(s);
    PhoneEnding(s);
    assert s[5..8] == "5-6" && !Digit.Has("5-6"[1]);
    assert !PhoneSeparator.Has(s[7]);
  }

  // ---------------------------------------------------------------------
  // Postal codes
  // ---------------------------------------------------------------------

  /** `[A-Z]` and `[a-z]` under the `i` flag. */
  const ZipLetter := Letter
  /** `[A-Z\d]` under the `i` flag. */
  const ZipLetterOrDigit := AlphaNumeric

  /** `/^\d{5}(-\d{4})?$/`: five digits, optionally a hyphen and four more. */
  const ZipUS := Cat(Rep(Class(Digit), 5), Opt(Cat(Lit('-'), Rep(Class(Digit), 4))))
  /** The inward part `(\s?\d[A-Z]{2})` of the UK pattern. */
  const ZipUKInward := Cat(Opt(Class(Space)), Cat(Class(Digit), Rep(Class(ZipLetter), 2)))
  /** `/^[A-Z]{1,2}\d[A-Z\d]?(\s?\d[A-Z]{2})$/i` */
  const ZipUK := Cat(Between(Class(ZipLetter), 1, 2), Cat(Class(Digit), Cat(Opt(Class(ZipLetterOrDigit)), ZipUKInward)))
  /** The part `\d[A-Z]\d` after the optional space of the Canadian pattern. */
  const ZipCALocal := Cat(Class(Digit), Cat(Class(ZipLetter), Class(Digit)))
  /** `/^[A-Z]\d[A-Z]\s?\d[A-Z]\d$/i` */
  const ZipCA := Cat(Class(ZipLetter), Cat(Class(Digit), Cat(Class(ZipLetter), Cat(Opt(Class(Space)), ZipCALocal))))
  /** `/^\d{4}$/` */
  const ZipAU := Rep(Class(Digit), 4)
  /** `/^\d{5}$/`, the pattern of both DE and FR. */
  const ZipFiveDigits := Rep(Class(Digit), 5)
  /** `/^\d{3}-\d{4}$/` */
  const ZipJP := Cat(Rep(Class(Digit), 3), Cat(Lit('-'), Rep(Class(Digit), 4)))
  /** `/^\d{5}-\d{3}$/` */
  const ZipBR := Cat(Rep(Class(Digit), 5), Cat(Lit('-'), Rep(Class(Digit), 3)))
  /** `/^[1-9]\d{5}$/` */
  const ZipIN := Cat(Class(NonZeroDigit), Rep(Class(Digit), 5))

  /** The country codes `isZipCode` knows. */
  const ZipCountries: seq<string> := ["US", "UK", "CA", "AU", "DE", "FR", "JP", "BR", "IN"]

  /** The pattern table of `isZipCode`, looked up by the upper-cased country code. */
  function ZipPattern(code: string): (r: Option<Re>)
    ensures r.Some? <==> code in ZipCountries
  {
    match code
    case "US" => Some(ZipUS)
    case "UK" => Some(ZipUK)
    case "CA" => Some(ZipCA)
    case "AU" => Some(ZipAU)
    case "DE" => Some(ZipFiveDigits)
    case "FR" => Some(ZipFiveDigits)
    case "JP" => Some(ZipJP)
    case "BR" => Some(ZipBR)
    case "IN" => Some(ZipIN)
    case _ => None
  }

  /**
   * `isZipCode(str, countryCode)`: false for an empty string or code and for
   * a code with no pattern; otherwise the pattern of the upper-cased code
   * tested against `str` with all white space deleted.
   */
  predicate IsZipCode(str: string, countryCode: string) {
    if str == "" || countryCode == "" then false
    else
      match ZipPattern(ToUpperCase(countryCode))
      case None => false
      case Some(pattern) => Matches(pattern, RemoveAll(Space, str))
  }

  /** Five digits, or five digits, a hyphen and four digits. */
  predicate USZipShape(t: string) {
    || (|t| == 5 && AllIn(Digit, t))
    || (|t| == 10 && AllIn(Digit, t[..5]) && t[5] == '-' && AllIn(Digit, t[6..]))
  }

  /**
   * What follows the outward letters of a UK postcode without spaces: a
   * digit, `b` letters or digits (b is 0 or 1), a digit and two letters.
   */
  predicate UKAfterLetters(u: string, b: nat) {
    |u| == b + 4 && Digit.Has(u[0]) && AllIn(AlphaNumeric, u[1..1 + b]) &&
    Digit.Has(u[1 + b]) && AllIn(Letter, u[2 + b..])
  }

  /** `a` letters, then what `UKAfterLetters` describes. */
  predicate UKLayout(t: string, a: nat, b: nat) {
    a <= |t| && AllIn(Letter, t[..a]) && UKAfterLetters(t[a..], b)
  }

  /**
   * A UK postcode without spaces: one or two letters, a digit, at most one
   * letter or digit, then a digit and two letters.
   */
  predicate UKZipShape(t: string) {
    UKLayout(t, 1, 0) || UKLayout(t, 1, 1) || UKLayout(t, 2, 0) || UKLayout(t, 2, 1)
  }

  /** A Canadian postal code without spaces: letter, digit, letter, digit, letter, digit. */
  predicate CAZipShape(t: string) {
    |t| == 6 && Letter.Has(t[0]) && Digit.Has(t[1]) && Letter.Has(t[2]) &&
    Digit.Has(t[3]) && Letter.Has(t[4]) && Digit.Has(t[5])
  }

  /** `n` digits, then a hyphen, then `m` digits. */
  predicate DigitsDashDigits(t: string, n: nat, m: nat) {
    |t| == n + 1 + m && AllIn(Digit, t[..n]) && t[n] == '-' && AllIn(Digit, t[n + 1..])
  }

  /** What each country's postal code looks like once white space is gone, in plain terms. */
  predicate ZipShape(code: string, t: string) {
    match code
    case "US" => USZipShape(t)
    case "UK" => UKZipShape(t)
    case "CA" => CAZipShape(t)
    case "AU" => |t| == 4 && AllIn(Digit, t)
    case "DE" => |t| == 5 && AllIn(Digit, t)
    case "FR" => |t| == 5 && AllIn(Digit, t)
    case "JP" => DigitsDashDigits(t, 3, 4)
    case "BR" => DigitsDashDigits(t, 5, 3)
    case "IN" => |t| == 6 && NonZeroDigit.Has(t[0]) && AllIn(Digit, t[1..])
    case _ => false
  }

  lemma USZipMeaning(t: string)
    ensures Matches(ZipUS, t) <==> USZipShape(t)
  {
    var five := Rep(Class(Digit), 5);
    CatOptBack(five, Cat(Lit('-'), Rep(Class(Digit), 4)), t);
    RepClass(Digit, 5, t);
    RepLitRep(Digit, 5, '-', 4, t);
  }

  /** The inward part of a UK postcode, once spaces are gone: a digit and two letters. */
  lemma UKInwardMeaning(t: string)
    requires NoWhitespace(t)
    ensures Matches(ZipUKInward, t) <==> |t| == 3 && Digit.Has(t[0]) && AllIn(Letter, t[1..])
  {
    var tail := Cat(Class(Digit), Rep(Class(ZipLetter), 2));
    OptClassAbsent(Space, tail, t);
    ClassThen(Digit, Rep(Class(ZipLetter), 2), t);
    if |t| > 0 {
      RepClass(ZipLetter, 2, t[1..]);
    }
  }

  /** What follows the outward letters of a UK postcode: a digit, an optional letter or digit, the inward part. */
  lemma UKAfterLettersMeaning(u: string)
    requires NoWhitespace(u)
    ensures Matches(Cat(Class(Digit), Cat(Opt(Class(ZipLetterOrDigit)), ZipUKInward)), u) <==>
      UKAfterLetters(u, 0) || UKAfterLetters(u, 1)
  {
    var rest := Cat(Opt(Class(ZipLetterOrDigit)), ZipUKInward);
    ClassThen(Digit, rest, u);
    if |u| > 0 {
      var v := u[1..];
      CatOptClassFront(ZipLetterOrDigit, ZipUKInward, v);
      UKInwardMeaning(v);
      assert u[1..1] == [];
      if |v| > 0 {
        assert v[0] == u[1] && v[1..] == u[2..];
        UKInwardMeaning(v[1..]);
        assert u[1..2] == [u[1]];
        if |v| > 1 {
          assert v[1..][0] == u[2] && v[1..][1..] == u[3..];
        }
      }
    }
  }

  lemma UKZipMeaning(t: string)
    requires NoWhitespace(t)
    ensures Matches(ZipUK, t) <==> UKZipShape(t)
  {
    if Matches(ZipUK, t) {
      UKZipToShape(t);
    }
    if UKZipShape(t) {
      UKZipFromShape(t);
    }
  }

  lemma UKZipToShape(t: string)
    requires NoWhitespace(t) && Matches(ZipUK, t)
    ensures UKZipShape(t)
  {
    var letters := Between(Class(ZipLetter), 1, 2);
    var after := Cat(Class(Digit), Cat(Opt(Class(ZipLetterOrDigit)), ZipUKInward));
    var a :| 0 <= a <= |t| && Matches(letters, t[..a]) && Matches(after, t[a..]);
    BetweenClass(ZipLetter, 1, 2, t[..a]);
    UKAfterLettersMeaning(t[a..]);
    UKLayoutOf(t, a);
  }

  /** One or two letters, then what may follow them, is a UK postcode shape. */
  lemma UKLayoutOf(t: string, a: nat)
    requires 1 <= a <= 2 && a <= |t| && AllIn(ZipLetter, t[..a])
    requires UKAfterLetters(t[a..], 0) || UKAfterLetters(t[a..], 1)
    ensures UKZipShape(t)
  {
    assert UKLayout(t, a, 0) || UKLayout(t, a, 1);
  }

  lemma UKZipFromShape(t: string)
    requires NoWhitespace(t) && UKZipShape(t)
    ensures Matches(ZipUK, t)
  {
    var letters := Between(Class(ZipLetter), 1, 2);
    var after := Cat(Class(Digit), Cat(Opt(Class(ZipLetterOrDigit)), ZipUKInward));
    var a := if UKLayout(t, 1, 0) || UKLayout(t, 1, 1) then 1 else 2;
    assert Matches(letters, t[..a]) by {
      BetweenClass(ZipLetter, 1, 2, t[..a]);
    }
    assert Matches(after, t[a..]) by {
      UKAfterLettersMeaning(t[a..]);
    }
    CatIntro(letters, after, t[..a], t[a..]);
    assert t[..a] + t[a..] == t;
  }

  lemma CAZipMeaning(t: string)
    requires NoWhitespace(t)
    ensures Matches(ZipCA, t) <==> CAZipShape(t)
  {
    var third := Cat(Class(ZipLetter), Cat(Opt(Class(Space)), ZipCALocal));
    var second := Cat(Class(Digit), third);
    ClassThen(ZipLetter, second, t);
    if |t| >= 1 {
      ClassThen(Digit, third, t[1..]);
      if |t| >= 2 {
        ClassThen(ZipLetter, Cat(Opt(Class(Space)), ZipCALocal), t[2..]);
        assert t[1..][1..] == t[2..];
        if |t| >= 3 {
          var u := t[3..];
          assert t[2..][1..] == u;
          OptClassAbsent(Space, ZipCALocal, u);
          ClassThen(Digit, Cat(Class(ZipLetter), Class(Digit)), u);
          if |u| >= 1 {
            ClassThen(ZipLetter, Class(Digit), u[1..]);
          }
        }
      }
    }
  }

  lemma INZipMeaning(t: string)
    ensures Matches(ZipIN, t) <==> |t| == 6 && NonZeroDigit.Has(t[0]) && AllIn(Digit, t[1..])
  {
    ClassThen(NonZeroDigit, Rep(Class(Digit), 5), t);
    if |t| > 0 {
      RepClass(Digit, 5, t[1..]);
    }
  }

  /** Every pattern of the table means the shape of its country, on strings without white space. */
  lemma ZipPatternMeaning(code: string, t: string)
    requires NoWhitespace(t)
    ensures ZipPattern(code).Some? ==> (Matches(ZipPattern(code).value, t) <==> ZipShape(code, t))
  {
    match code
    case "US" => USZipMeaning(t);
    case "UK" => UKZipMeaning(t);
    case "CA" => CAZipMeaning(t);
    case "AU" => RepClass(Digit, 4, t);
    case "DE" => RepClass(Digit, 5, t);
    case "FR" => RepClass(Digit, 5, t);
    case "JP" => RepLitRep(Digit, 3, '-', 4, t);
    case "BR" => RepLitRep(Digit, 5, '-', 3, t);
    case "IN" => INZipMeaning(t);
    case _ =>
  }

  /**
   * `isZipCode` holds exactly when neither argument is empty and the input,
   * with its white space deleted, has the shape of the upper-cased country's
   * postal codes; unknown countries have no shape.
   */
  lemma ZipMeaning(str: string, countryCode: string)
    ensures IsZipCode(str, countryCode) <==>
      str != "" && countryCode != "" && ZipShape(ToUpperCase(countryCode), RemoveAll(Space, str))
  {
    ZipPatternMeaning(ToUpperCase(countryCode), RemoveAll(Space, str));
  }

  /** Every postal-code shape is between four and ten characters long. */
  lemma ZipShapeLength(code: string, t: string)
    ensures ZipShape(code, t) ==> 4 <= |t| <= 10
  {
  }

  /** Upper-casing ignores a previous lower-casing: the country code is case-insensitive. */
  lemma ZipCountryCaseInsensitive(str: string, countryCode: string)
    ensures IsZipCode(str, ToLowerCase(countryCode)) == IsZipCode(str, countryCode)
  {
    UpperOfLower(countryCode);
  }

  /** White space anywhere in the input makes no difference to `isZipCode`. */
  lemma ZipIgnoresWhitespace(before: string, spaces: string, after: string, countryCode: string)
    requires AllWhitespace(spaces)
    ensures IsZipCode(before + spaces + after, countryCode) == IsZipCode(before + after, countryCode)
  {
    RemoveAllConcat(Space, before + spaces, after);
    RemoveAllConcat(Space, before, spaces);
    RemoveAllConcat(Space, before, after);
    RemoveAllEverything(Space, spaces);
    assert RemoveAll(Space, before) + [] == RemoveAll(Space, before);
    var t := RemoveAll(Space, before + after);
    ZipMeaning(before + spaces + after, countryCode);
    ZipMeaning(before + after, countryCode);
    ZipShapeLength(ToUpperCase(countryCode), t);
    if before + after == "" {
      assert RemoveAll(Space, before + after) == [];
    }
  }

  /** For an input without white space, `isZipCode` is the shape test itself. */
  lemma ZipOfUnspaced(str: string, countryCode: string)
    requires NoWhitespace(str)
    ensures IsZipCode(str, countryCode) <==>
      str != "" && countryCode != "" && ZipShape(ToUpperCase(countryCode), str)
  {
    RemoveAllUnchanged(Space, str);
    ZipMeaning(str, countryCode);
  }

  /** Documented example: a five-digit US ZIP code. */
  lemma ZipAcceptsUS()
    ensures IsZipCode("12345", "US")
  {
    NoWhitespaceByMembers("12345");
    ZipOfUnspaced("12345", "US");
    assert ToUpperCase("US") == "US";
    AllInByMembers(Digit, "12345");
  }

  /** Documented example: a Canadian postal code with its inner space. */
  lemma ZipAcceptsCA()
    ensures IsZipCode("K1A 0B1", "CA")
  {
    assert "K1A" + " " + "0B1" == "K1A 0B1" && "K1A" + "0B1" == "K1A0B1";
    NoWhitespaceByMembers("K1A0B1");
    assert ToUpperCase("CA") == "CA";
    CanadianShapeExample("K1A0B1");
    ZipAcceptsSpaced("K1A", " ", "0B1", "CA");
  }

  /** A postcode of the right shape is accepted with white space inside it. */
  lemma ZipAcceptsSpaced(before: string, spaces: string, after: string, countryCode: string)
    requires AllWhitespace(spaces) && NoWhitespace(before + after) && before + after != ""
    requires countryCode != "" && ZipShape(ToUpperCase(countryCode), before + after)
    ensures IsZipCode(before + spaces + after, countryCode)
  {
    ZipIgnoresWhitespace(before, spaces, after, countryCode);
    ZipOfUnspaced(before + after, countryCode);
  }

  /** The documented Canadian postcode, without its space, has the Canadian shape. */
  lemma CanadianShapeExample(t: string)
    requires t == "K1A0B1"
    ensures ZipShape("CA", t)
  {
    assert Letter.Has(t[0]) && Digit.Has(t[1]) && Letter.Has(t[2]);
    assert Digit.Has(t[3]) && Letter.Has(t[4]) && Digit.Has(t[5]);
  }

  /** A UK postcode with a two-letter area and a lower-case country code. */
  lemma ZipAcceptsUK(str: string, countryCode: string)
    requires str == "SW1A 1AA" && countryCode == "uk"
    ensures IsZipCode(str, countryCode)
  {
    var t := str[..4] + str[5..];
    assert str[..4] + str[4..5] + str[5..] == str;
    assert AllWhitespace(str[4..5]) by {
      assert str[4..5] == [' '];
    }
    ZipIgnoresWhitespace(str[..4], str[4..5], str[5..], countryCode);
    assert t == "SW1A1AA";
    NoWhitespaceByMembers(t);
    ZipOfUnspaced(t, countryCode);
    assert ToUpperCase(countryCode) == "UK";
    ExampleUKShape(t);
  }

  lemma ExampleUKShape(t: string)
    requires t == "SW1A1AA"
    ensures ZipShape("UK", t)
  {
    AllInByMembers(Letter, t[..2]);
    AllInByMembers(AlphaNumeric, t[2..][1..2]);
    AllInByMembers(Letter, t[2..][3..]);
    assert UKLayout(t, 2, 1);
  }

  /** Documented example: a hyphenated string of the wrong length is no US ZIP code. */
  lemma ZipRejectsShortUS()
    ensures !IsZipCode("123-45", "US")
  {
    NoWhitespaceByMembers("123-45");
    ZipOfUnspaced("123-45", "US");
  }

  /** A country without a pattern accepts nothing. */
  lemma ZipRejectsUnknownCountry(str: string, countryCode: string)
    requires ToUpperCase(countryCode) !in ZipCountries
    ensures !IsZipCode(str, countryCode)
  {
  }

  // ---------------------------------------------------------------------
  // Dates
  // ---------------------------------------------------------------------

  /** `\d{n}` */
  function Digits(n: nat): Re {
    Rep(Class(Digit), n)
  }

  /** `\d{4}-\d{2}-\d{2}` */
  const DateYMD := Cat(Digits(4), Cat(Lit('-'), Cat(Digits(2), Cat(Lit('-'), Digits(2)))))
  /** `\d{2}:\d{2}:\d{2}` */
  const TimeHMS := Cat(Digits(2), Cat(Lit(':'), Cat(Digits(2), Cat(Lit(':'), Digits(2)))))

  /** The eight layouts `isDate` accepts, in the order it tries them. */
  const DateFormats: seq<Re> := [
    DateYMD,
    Cat(Digits(2), Cat(Lit('/'), Cat(Digits(2), Cat(Lit('/'), Digits(4))))),
    Cat(Digits(4), Cat(Lit('/'), Cat(Digits(2), Cat(Lit('/'), Digits(2))))),
    Cat(Digits(2), Cat(Lit('-'), Cat(Digits(2), Cat(Lit('-'), Digits(4))))),
    Cat(Digits(4), Cat(Lit('.'), Cat(Digits(2), Cat(Lit('.'), Digits(2))))),
    Cat(Digits(2), Cat(Lit('.'), Cat(Digits(2), Cat(Lit('.'), Digits(4))))),
    Digits(8),
    Cat(DateYMD, Cat(Lit(' '), TimeHMS))
  ]

  /** `[-/.\s]`: the characters the mixed-separator test looks for. */
  const DateSeparator := Union(AnyOf("-/."), Space)

  /** `/[-/.\s]{2,}/`, tested unanchored. */
  const MixedSeparators := AtLeast(Class(DateSeparator), 2)

  /**
   * `isDate`: a non-empty string that matches one of the layouts and in
   * which the mixed-separator pattern finds nothing.
   */
  predicate IsDate(dateStr: string) {
    && dateStr != ""
    && (exists i :: 0 <= i < |DateFormats| && Matches(DateFormats[i], dateStr))
    && !Search(MixedSeparators, dateStr)
  }

  /**
   * The same layouts written as templates: `d` stands for a digit, every
   * other character for itself.
   */
  const DateTemplates: seq<string> := [
    "dddd-dd-dd", "dd/dd/dddd", "dddd/dd/dd", "dd-dd-dddd",
    "dddd.dd.dd", "dd.dd.dddd", "dddddddd", "dddd-dd-dd dd:dd:dd"
  ]

  /** The character class of each position of a template. */
  function TemplateClasses(template: string): (r: seq<CharClass>)
    ensures |r| == |template|
  {
    seq(|template|, i requires 0 <= i < |template| => if template[i] == 'd' then Digit else Single(template[i]))
  }

  /** `s` has a digit where the template has `d` and the template's character everywhere else. */
  predicate FitsTemplate(s: string, template: string) {
    Fits(s, TemplateClasses(template))
  }

  /** Templates concatenate position by position. */
  lemma TemplateClassesConcat(a: string, b: string)
    ensures TemplateClasses(a + b) == TemplateClasses(a) + TemplateClasses(b)
  {
  }

  /** The layout of the date-and-time format, position by position, is its template. */
  lemma DateTimePositions()
    ensures IsFixed(DateFormats[7]) && Positions(DateFormats[7]) == TemplateClasses(DateTemplates[7])
  {
    var day := TemplateClasses("dddd-dd-dd");
    var time := TemplateClasses("dd:dd:dd");
    DayPart();
    TimePart();
    assert Positions(DateFormats[7]) == day + [Single(' ')] + time;
    TemplateClassesConcat("dddd-dd-dd", " ");
    TemplateClassesConcat("dddd-dd-dd ", "dd:dd:dd");
    assert "dddd-dd-dd" + " " == "dddd-dd-dd " && "dddd-dd-dd " + "dd:dd:dd" == DateTemplates[7];
  }

  /** The date part of the date-and-time format, position by position. */
  lemma DayPart()
    ensures IsFixed(DateYMD) && Positions(DateYMD) == TemplateClasses("dddd-dd-dd")
  {
  }

  /** The time part of the date-and-time format, position by position. */
  lemma TimePart()
    ensures IsFixed(TimeHMS) && Positions(TimeHMS) == TemplateClasses("dd:dd:dd")
  {
  }

  /** The layout `dddd-dd-dd`, position by position, is its template. */
  lemma DatePositions0()
    ensures IsFixed(DateFormats[0]) && Positions(DateFormats[0]) == TemplateClasses(DateTemplates[0])
  {
  }

  /** The layout `dd/dd/dddd`, position by position, is its template. */
  lemma DatePositions1()
    ensures IsFixed(DateFormats[1]) && Positions(DateFormats[1]) == TemplateClasses(DateTemplates[1])
  {
  }

  /** The layout `dddd/dd/dd`, position by position, is its template. */
  lemma DatePositions2()
    ensures IsFixed(DateFormats[2]) && Positions(DateFormats[2]) == TemplateClasses(DateTemplates[2])
  {
  }

  /** The layout `dd-dd-dddd`, position by position, is its template. */
  lemma DatePositions3()
    ensures IsFixed(DateFormats[3]) && Positions(DateFormats[3]) == TemplateClasses(DateTemplates[3])
  {
  }

  /** The layout `dddd.dd.dd`, position by position, is its template. */
  lemma DatePositions4()
    ensures IsFixed(DateFormats[4]) && Positions(DateFormats[4]) == TemplateClasses(DateTemplates[4])
  {
  }

  /** The layout `dd.dd.dddd`, position by position, is its template. */
  lemma DatePositions5()
    ensures IsFixed(DateFormats[5]) && Positions(DateFormats[5]) == TemplateClasses(DateTemplates[5])
  {
  }

  /** The layout of each format, position by position, is its template. */
  lemma DateFormatPositions(i: nat)
    requires i < |DateFormats|
    ensures IsFixed(DateFormats[i]) && Positions(DateFormats[i]) == TemplateClasses(DateTemplates[i])
  {
    if i == 7 {
      DateTimePositions();
    } else if i == 6 {
      assert IsFixed(Digits(8)) && Positions(Digits(8)) == TemplateClasses("dddddddd");
    } else if i == 0 {
      DatePositions0();
    } else if i == 1 {
      DatePositions1();
    } else if i == 2 {
      DatePositions2();
    } else if i == 3 {
      DatePositions3();
    } else if i == 4 {
      DatePositions4();
    } else {
      DatePositions5();
    }
  }

  /** Each layout of `isDate` matches exactly the strings that fit its template. */
  lemma DateFormatMeaning(i: nat, s: string)
    requires i < |DateFormats|
    ensures Matches(DateFormats[i], s) <==> FitsTemplate(s, DateTemplates[i])
  {
    DateFormatPositions(i);
    FixedMatches(DateFormats[i], s);
  }

  /** No two template characters other than `d` are adjacent. */
  predicate Separated(template: string) {
    forall j :: 0 <= j < |template| - 1 ==> template[j] == 'd' || template[j + 1] == 'd'
  }

  /** Every date template separates its fields by one character, and is at least eight long. */
  lemma DateTemplatesSeparated(i: nat)
    requires i < |DateTemplates|
    ensures Separated(DateTemplates[i]) && |DateTemplates[i]| >= 8
  {
    if i < 4 {
      if i == 0 {
      } else if i == 1 {
      } else if i == 2 {
      } else {
      }
    } else if i == 4 {
    } else if i == 5 {
    } else if i == 6 {
    } else {
    }
  }

  /** A string fitting a separated template has no two separator characters in a row. */
  lemma FitsSeparatedTemplate(s: string, template: string)
    requires FitsTemplate(s, template) && Separated(template)
    ensures !AdjacentPair(DateSeparator, s)
  {
    var classes := TemplateClasses(template);
    forall j | 0 <= j < |s| - 1 ensures !DateSeparator.Has(s[j]) || !DateSeparator.Has(s[j + 1]) {
      if template[j] == 'd' {
        assert classes[j] == Digit;
      } else {
        assert classes[j + 1] == Digit;
      }
    }
  }

  /**
   * The mixed-separator test never changes the outcome of `isDate`: a
   * string that matches one of the layouts never has two separators in a row.
   */
  lemma DateSeparatorTestRedundant(s: string)
    ensures (exists i :: 0 <= i < |DateFormats| && Matches(DateFormats[i], s)) ==> !Search(MixedSeparators, s)
  {
    SearchAtLeastTwo(DateSeparator, s);
    if exists i :: 0 <= i < |DateFormats| && Matches(DateFormats[i], s) {
      var i :| 0 <= i < |DateFormats| && Matches(DateFormats[i], s);
      DateFormatMeaning(i, s);
      DateTemplatesSeparated(i);
      FitsSeparatedTemplate(s, DateTemplates[i]);
    }
  }

  /**
   * `isDate` holds exactly when the string fits one of the eight templates;
   * equivalently, when it matches a layout and has no two separators in a row.
   */
  lemma DateMeaning(s: string)
    ensures IsDate(s) <==> exists i :: 0 <= i < |DateTemplates| && FitsTemplate(s, DateTemplates[i])
    ensures IsDate(s) <==>
      (exists i :: 0 <= i < |DateFormats| && Matches(DateFormats[i], s)) && !AdjacentPair(DateSeparator, s)
  {
    DateSeparatorTestRedundant(s);
    SearchAtLeastTwo(DateSeparator, s);
    if exists i :: 0 <= i < |DateTemplates| && FitsTemplate(s, DateTemplates[i]) {
      var i :| 0 <= i < |DateTemplates| && FitsTemplate(s, DateTemplates[i]);
      DateFormatMeaning(i, s);
      DateTemplatesSeparated(i);
    }
    if exists i :: 0 <= i < |DateFormats| && Matches(DateFormats[i], s) {
      var i :| 0 <= i < |DateFormats| && Matches(DateFormats[i], s);
      DateFormatMeaning(i, s);
    }
  }

  /** Documented example: an ISO calendar date is a date. */
  lemma DateAcceptsISO()
    ensures IsDate("2025-02-16")
  {
    IsoDateFits("2025-02-16");
    DateByTemplate("2025-02-16", 0);
  }

  /** The ISO example has a digit wherever `dddd-dd-dd` has `d`, and a hyphen elsewhere. */
  lemma IsoDateFits(s: string)
    requires s == "2025-02-16"
    ensures FitsTemplate(s, DateTemplates[0])
  {
    var classes := TemplateClasses(DateTemplates[0]);
    forall k | 0 <= k < |s| ensures classes[k].Has(s[k]) {
      assert DateTemplates[0][k] == 'd' <==> k != 4 && k != 7;
    }
  }

  /** A string that fits one of the templates is a date. */
  lemma DateByTemplate(s: string, i: nat)
    requires i < |DateTemplates| && FitsTemplate(s, DateTemplates[i])
    ensures IsDate(s)
  {
    DateMeaning(s);
  }

  /** A string that fits none of the templates is not a date. */
  lemma DateByNoTemplate(s: string)
    requires forall i :: 0 <= i < |DateTemplates| ==> !FitsTemplate(s, DateTemplates[i])
    ensures !IsDate(s)
  {
    DateMeaning(s);
  }

  /** Documented example: a time without seconds is no supported layout. */
  lemma DateRejectsShortTime()
    ensures !IsDate("2025/02/23 14:30")
  {
    forall i | 0 <= i < |DateTemplates| ensures !FitsTemplate("2025/02/23 14:30", DateTemplates[i]) {
      assert |DateTemplates[i]| != 16;
    }
    DateByNoTemplate("2025/02/23 14:30");
  }

  /** Documented example: a hyphen and a slash in the same date fit no layout. */
  lemma DateRejectsMixedSeparators()
    ensures !IsDate("2025-02/23")
  {
    forall i | 0 <= i < |DateTemplates| ensures !FitsTemplate("2025-02/23", DateTemplates[i]) {
      MixedSeparatorsMisfit("2025-02/23", i);
    }
    DateByNoTemplate("2025-02/23");
  }

  /** Each template has a digit or a different separator where the mixed example has a separator. */
  lemma MixedSeparatorsMisfit(s: string, i: nat)
    requires s == "2025-02/23" && i < |DateTemplates|
    ensures !FitsTemplate(s, DateTemplates[i])
  {
    var classes := TemplateClasses(DateTemplates[i]);
    if i == 0 {
      assert classes[7] == Single('-');
    } else if i == 2 || i == 4 {
      assert !classes[4].Has(s[4]);
    } else if i == 1 || i == 3 || i == 5 {
      assert !classes[2].Has(s[2]);
    } else {
      assert |classes| != 10;
    }
  }

  // ---------------------------------------------------------------------
  // URLs
  // ---------------------------------------------------------------------

  /** `[\w.-]`, which the `i` flag leaves as it is. */
  const UrlHostChar := Union(WordChar, AnyOf(".-"))
  /** `s` under the `i` flag. */
  const UrlSecure := Union(Single('s'), Single('S'))
  /** `https?:\/\/` under the `i` flag. */
  const UrlProtocol := Cat(WordI("http"), Cat(Opt(Class(UrlSecure)), WordI("://")))
  /** `\/[^\s]*` */
  const UrlPath := Cat(Lit('/'), Star(Class(Not(Space))))
  /** `([a-z]{2,6})(\/[^\s]*)?` under the `i` flag. */
  const UrlTldPath := Cat(Between(Class(Letter), 2, 6), Opt(UrlPath))
  /** `([\w.-]+)\.([a-z]{2,6})(\/[^\s]*)?` under the `i` flag. */
  const UrlAfterProtocol := Cat(Plus(Class(UrlHostChar)), Cat(Lit('.'), UrlTldPath))
  /** `/^(https?:\/\/)?([\w.-]+)\.([a-z]{2,6})(\/[^\s]*)?$/i` */
  const UrlPattern := Cat(Opt(UrlProtocol), UrlAfterProtocol)

  /** `isUrl` */
  predicate IsUrl(str: string) {
    Matches(UrlPattern, str)
  }

  /** `http://` or `https://`, in any mix of cases. */
  predicate IsProtocol(p: string) {
    ToLowerCase(p) == "http://" || ToLowerCase(p) == "https://"
  }

  /** A host name: word characters, dots and hyphens, at least one. */
  predicate IsHost(h: string) {
    |h| > 0 && AllIn(UrlHostChar, h)
  }

  /** A top-level domain: two to six letters. */
  predicate IsTld(t: string) {
    2 <= |t| <= 6 && AllIn(Letter, t)
  }

  /** A path: nothing, or a slash followed by anything but white space. */
  predicate IsPath(q: string) {
    q == "" || (q[0] == '/' && NoWhitespace(q))
  }

  /** `s` is an optional protocol, a host, a dot, a top-level domain and an optional path. */
  predicate UrlParts(s: string, p: string, h: string, t: string, q: string) {
    && (p == "" || IsProtocol(p))
    && IsHost(h) && IsTld(t) && IsPath(q)
    && s == p + h + "." + t + q
  }

  /** What may follow `http`: `://` or `s://`, in any case. */
  lemma AfterHttpMeaning(y: string)
    ensures Matches(Cat(Opt(Class(UrlSecure)), WordI("://")), y) <==>
      ToLowerCase(y) == "://" || ToLowerCase(y) == "s://"
  {
    CatOptClassFront(UrlSecure, WordI("://"), y);
    WordIMatches("://", y);
    if |y| > 0 {
      WordIMatches("://", y[1..]);
      LowerSecure(y);
    }
  }

  /** Lower-cased, `y` reads `s://` exactly when its first character is `s` or `S` and the rest reads `://`. */
  lemma LowerSecure(y: string)
    requires |y| > 0
    ensures ToLowerCase(y) == "s://" <==> UrlSecure.Has(y[0]) && ToLowerCase(y[1..]) == "://"
  {
    var l := ToLowerCase(y);
    assert l[1..] == ToLowerCase(y[1..]);
    assert UrlSecure.Has(y[0]) <==> l[0] == 's';
    assert "s://" == ['s'] + "://";
    if l[0] == 's' && l[1..] == "://" {
      assert l == [l[0]] + l[1..];
    }
  }

  /** The protocol group matches exactly `http://` and `https://` in any case. */
  lemma ProtocolMeaning(x: string)
    ensures Matches(UrlProtocol, x) <==> IsProtocol(x)
  {
    var rest := Cat(Opt(Class(UrlSecure)), WordI("://"));
    assert Width(WordI("http")) == Some(4);
    CatFixedFront(WordI("http"), rest, x);
    if |x| >= 4 {
      WordIMatches("http", x[..4]);
      AfterHttpMeaning(x[4..]);
      ProtocolHalves(x);
    }
  }

  /** A protocol, read as its first four characters and the rest. */
  lemma ProtocolHalves(x: string)
    requires |x| >= 4
    ensures IsProtocol(x) <==>
      ToLowerCase(x[..4]) == "http" && (ToLowerCase(x[4..]) == "://" || ToLowerCase(x[4..]) == "s://")
  {
    var y := x[4..];
    ToLowerCaseConcat(x[..4], y);
    assert x[..4] + y == x;
    var l := ToLowerCase(x);
    assert l[..4] == ToLowerCase(x[..4]) && l[4..] == ToLowerCase(y);
    assert "http://" == "http" + "://" && "https://" == "http" + "s://";
    if l == "http://" || l == "https://" {
      assert l[..4] == "http";
    }
  }

  /** The optional path group matches exactly the paths. */
  lemma PathMeaning(q: string)
    ensures Matches(Opt(UrlPath), q) <==> IsPath(q)
  {
    assert Matches(Opt(UrlPath), q) <==> Matches(UrlPath, q) || q == [];
    ClassThen(Single('/'), Star(Class(Not(Space))), q);
    if |q| > 0 {
      StarClass(Not(Space), q[1..]);
      if q[0] == '/' {
        SlashThenNoWhitespace(q);
      }
    }
  }

  /** After a slash, characters outside `\s` are exactly a string without white space. */
  lemma SlashThenNoWhitespace(q: string)
    requires |q| > 0 && q[0] == '/'
    ensures AllIn(Not(Space), q[1..]) <==> NoWhitespace(q)
  {
    if AllIn(Not(Space), q[1..]) {
      forall i | 0 <= i < |q| ensures !IsWhitespace(q[i]) {
        if i > 0 {
          assert q[i] == q[1..][i - 1];
        }
      }
    }
    if NoWhitespace(q) {
      forall i | 0 <= i < |q| - 1 ensures Not(Space).Has(q[1..][i]) {
        assert q[1..][i] == q[i + 1];
      }
    }
  }

  /** A match of the domain ending splits into a top-level domain and a path. */
  lemma TldPathSplit(z: string)
    requires Matches(UrlTldPath, z)
    ensures exists t, q :: IsTld(t) && IsPath(q) && z == t + q
  {
    CatSplit(Between(Class(Letter), 2, 6), Opt(UrlPath), z);
    var t, q :| z == t + q && Matches(Between(Class(Letter), 2, 6), t) && Matches(Opt(UrlPath), q);
    BetweenClass(Letter, 2, 6, t);
    PathMeaning(q);
  }

  /** A match of what follows the protocol starts with a host and a dot. */
  lemma AfterProtocolHost(y: string)
    requires Matches(UrlAfterProtocol, y)
    ensures exists h, z :: IsHost(h) && y == h + z && |z| > 0 && z[0] == '.' && Matches(UrlTldPath, z[1..])
  {
    CatSplit(Plus(Class(UrlHostChar)), Cat(Lit('.'), UrlTldPath), y);
    var h, z :| y == h + z && Matches(Plus(Class(UrlHostChar)), h) && Matches(Cat(Lit('.'), UrlTldPath), z);
    PlusClass(UrlHostChar, h);
    ClassThen(Single('.'), UrlTldPath, z);
  }

  /** A dot and what follows it, put back together. */
  lemma DotThen(y: string, h: string, z: string, t: string, q: string)
    requires y == h + z && |z| > 0 && z[0] == '.' && z[1..] == t + q
    ensures y == h + "." + t + q
  {
    assert z == [z[0]] + z[1..];
  }

  /** A match of what follows the protocol splits into host, dot, top-level domain and path. */
  lemma AfterProtocolSplit(y: string)
    requires Matches(UrlAfterProtocol, y)
    ensures exists h, t, q :: IsHost(h) && IsTld(t) && IsPath(q) && y == h + "." + t + q
  {
    AfterProtocolHost(y);
    var h, z :| IsHost(h) && y == h + z && |z| > 0 && z[0] == '.' && Matches(UrlTldPath, z[1..]);
    TldPathSplit(z[1..]);
    var t, q :| IsTld(t) && IsPath(q) && z[1..] == t + q;
    DotThen(y, h, z, t, q);
  }

  /** A match of the URL pattern splits into its parts. */
  lemma UrlToParts(s: string)
    requires IsUrl(s)
    ensures exists p, h, t, q :: UrlParts(s, p, h, t, q)
  {
    CatSplit(Opt(UrlProtocol), UrlAfterProtocol, s);
    var p, y :| s == p + y && Matches(Opt(UrlProtocol), p) && Matches(UrlAfterProtocol, y);
    OptionalProtocol(p);
    AfterProtocolSplit(y);
    var h, t, q :| IsHost(h) && IsTld(t) && IsPath(q) && y == h + "." + t + q;
    UrlRegroup(p, h, t, q);
    assert UrlParts(s, p, h, t, q);
  }

  /** What follows the protocol: a host, a dot, a top-level domain and a path. */
  lemma AfterProtocolFromParts(h: string, t: string, q: string)
    requires IsHost(h) && IsTld(t) && IsPath(q)
    ensures Matches(UrlAfterProtocol, h + "." + t + q)
  {
    TldPathFromParts(t, q);
    assert Matches(Cat(Lit('.'), UrlTldPath), "." + (t + q)) by {
      assert Matches(Lit('.'), ".");
      CatIntro(Lit('.'), UrlTldPath, ".", t + q);
    }
    PlusClass(UrlHostChar, h);
    CatIntro(Plus(Class(UrlHostChar)), Cat(Lit('.'), UrlTldPath), h, "." + (t + q));
    HostRegroup(h, t, q);
  }

  /** A top-level domain and a path match what follows the last dot. */
  lemma TldPathFromParts(t: string, q: string)
    requires IsTld(t) && IsPath(q)
    ensures Matches(UrlTldPath, t + q)
  {
    BetweenClass(Letter, 2, 6, t);
    PathMeaning(q);
    CatIntro(Between(Class(Letter), 2, 6), Opt(UrlPath), t, q);
  }

  /** The host comes off the front of what follows the protocol as a whole. */
  lemma HostRegroup(h: string, t: string, q: string)
    ensures h + ("." + (t + q)) == h + "." + t + q
  {
  }

  /** Parts put together match the URL pattern. */
  lemma UrlFromParts(s: string, p: string, h: string, t: string, q: string)
    requires UrlParts(s, p, h, t, q)
    ensures IsUrl(s)
  {
    OptionalProtocol(p);
    AfterProtocolFromParts(h, t, q);
    UrlRegroup(p, h, t, q);
    CatIntro(Opt(UrlProtocol), UrlAfterProtocol, p, h + "." + t + q);
  }

  /** The protocol comes off the front of a URL as a whole. */
  lemma UrlRegroup(p: string, h: string, t: string, q: string)
    ensures p + h + "." + t + q == p + (h + "." + t + q)
  {
  }

  /** `(https?:\/\/)?` matches no protocol, `http://` or `https://`, in any case. */
  lemma OptionalProtocol(p: string)
    ensures Matches(Opt(UrlProtocol), p) <==> p == "" || IsProtocol(p)
  {
    ProtocolMeaning(p);
  }

  /**
   * `isUrl` holds exactly when the string is an optional `http://` or
   * `https://`, a host of word characters, dots and hyphens, a dot, a
   * top-level domain of two to six letters and an optional path.
   */
  lemma UrlMeaning(s: string)
    ensures IsUrl(s) <==> exists p, h, t, q :: UrlParts(s, p, h, t, q)
  {
    if IsUrl(s) {
      UrlToParts(s);
    }
    if exists p, h, t, q :: UrlParts(s, p, h, t, q) {
      var p, h, t, q :| UrlParts(s, p, h, t, q);
      UrlFromParts(s, p, h, t, q);
    }
  }

  /** `[\w.-]`: letters, digits, underscore, dot and hyphen. */
  lemma UrlHostCharMeaning()
    ensures forall c :: UrlHostChar.Has(c) <==> WordChar.Has(c) || c == '.' || c == '-'
  {
    forall c ensures UrlHostChar.Has(c) <==> WordChar.Has(c) || c == '.' || c == '-' {
      assert UrlHostChar.Has(c) == (WordChar.Has(c) || AnyOf(".-").Has(c));
      assert AnyOf(".-").Has(c) <==> c in ".-";
    }
  }

  /** A protocol has no white space. */
  lemma ProtocolNoWhitespace(p: string)
    requires IsProtocol(p)
    ensures NoWhitespace(p)
  {
    var l := ToLowerCase(p);
    forall i | 0 <= i < |p| ensures !IsWhitespace(p[i]) {
      assert l[i] in l;
      assert l[i] in "https://";
      if !('A' <= p[i] <= 'Z') {
        assert p[i] == l[i];
      }
    }
  }

  /** A URL contains no white space. */
  lemma UrlNoWhitespace(s: string)
    ensures IsUrl(s) ==> NoWhitespace(s)
  {
    if IsUrl(s) {
      UrlToParts(s);
      var p, h, t, q :| UrlParts(s, p, h, t, q);
      if p != "" {
        ProtocolNoWhitespace(p);
      }
      HostNoWhitespace(h);
      TldNoWhitespace(t);
      PartsNoWhitespace(p, h, t, q);
    }
  }

  /** A host holds no white space. */
  lemma HostNoWhitespace(h: string)
    requires IsHost(h)
    ensures NoWhitespace(h)
  {
    forall i | 0 <= i < |h| ensures !IsWhitespace(h[i]) {
      HostCharNotWhitespace(h[i]);
    }
  }

  /** A character of a host is no white space. */
  lemma HostCharNotWhitespace(c: char)
    requires UrlHostChar.Has(c)
    ensures !IsWhitespace(c)
  {
    UrlHostCharMeaning();
    NamedClasses();
  }

  /** A top-level domain holds no white space. */
  lemma TldNoWhitespace(t: string)
    requires IsTld(t)
    ensures NoWhitespace(t)
  {
    NamedClasses();
    forall i | 0 <= i < |t| ensures !IsWhitespace(t[i]) {
      assert 'a' <= t[i] <= 'z' || 'A' <= t[i] <= 'Z';
    }
  }

  /** Parts without white space, joined around a dot, have none either. */
  lemma PartsNoWhitespace(p: string, h: string, t: string, q: string)
    requires NoWhitespace(p) && NoWhitespace(h) && NoWhitespace(t) && NoWhitespace(q)
    ensures NoWhitespace(p + h + "." + t + q)
  {
    assert NoWhitespace(".") by {
      assert "."[0] == '.';
    }
    NoWhitespaceConcat(p, h);
    NoWhitespaceConcat(p + h, ".");
    NoWhitespaceConcat(p + h + ".", t);
    NoWhitespaceConcat(p + h + "." + t, q);
  }

  /** The dot before the top-level domain sits right after the protocol and the host. */
  lemma UrlPartsDot(s: string, p: string, h: string, t: string, q: string)
    requires UrlParts(s, p, h, t, q)
    ensures |p| + |h| < |s| && s[|p| + |h|] == '.'
    ensures s[|p|..|p| + |h|] == h && s[..|p|] == p
  {
    assert s == p + h + "." + t + q;
    assert (p + h + "." + t + q)[|p| + |h|] == '.';
  }

  /** A URL has a dot in it. */
  lemma UrlHasDot(s: string)
    ensures IsUrl(s) ==> '.' in s
  {
    if IsUrl(s) {
      UrlToParts(s);
      var p, h, t, q :| UrlParts(s, p, h, t, q);
      UrlPartsDot(s, p, h, t, q);
    }
  }

  /** Documented example: a host and top-level domain after `http://`. */
  lemma UrlAcceptsHttp()
    ensures IsUrl("http://example.com")
  {
    assert ToLowerCase("http://") == "http://";
    NamedClasses();
    UrlHostCharMeaning();
    AllInByMembers(UrlHostChar, "example");
    AllInByMembers(Letter, "com");
    assert "http://" + "example" + "." + "com" + "" == "http://example.com";
    UrlFromParts("http://example.com", "http://", "example", "com", "");
  }

  /** Documented example: the secure protocol. */
  lemma UrlAcceptsHttps()
    ensures IsUrl("https://example.com")
  {
    assert ToLowerCase("https://") == "https://";
    NamedClasses();
    UrlHostCharMeaning();
    AllInByMembers(UrlHostChar, "example");
    AllInByMembers(Letter, "com");
    assert "https://" + "example" + "." + "com" + "" == "https://example.com";
    UrlFromParts("https://example.com", "https://", "example", "com", "");
  }

  /** Documented example: the protocol is optional. */
  lemma UrlAcceptsBareDomain()
    ensures IsUrl("example.com")
  {
    NamedClasses();
    UrlHostCharMeaning();
    AllInByMembers(UrlHostChar, "example");
    AllInByMembers(Letter, "com");
    assert "" + "example" + "." + "com" + "" == "example.com";
    UrlFromParts("example.com", "", "example", "com", "");
  }

  /** The parts of `https://example.com`. */
  lemma ExampleComParts()
    ensures IsProtocol("https://") && IsHost("example") && IsTld("com")
  {
    assert ToLowerCase("https://") == "https://";
    NamedClasses();
    UrlHostCharMeaning();
    AllInByMembers(UrlHostChar, "example");
    AllInByMembers(Letter, "com");
  }

  /** The path of the documented example below. */
  lemma ExamplePath()
    ensures IsPath("/path/to/resource")
  {
    var p, q, r := "/path", "/to", "/resource";
    NoWhitespaceByMembers(p);
    NoWhitespaceByMembers(q);
    NoWhitespaceByMembers(r);
    NoWhitespaceConcat(p, q);
    NoWhitespaceConcat(p + q, r);
    assert p + q + r == "/path/to/resource";
  }

  /** The documented example below, read as its five parts. */
  lemma ExamplePathParts(u: string)
    requires u == "https://example.com/path/to/resource"
    ensures UrlParts(u, "https://", "example", "com", "/path/to/resource")
  {
    ExampleComParts();
    ExamplePath();
    ExamplePathJoined("https://example.com", "/path/to/resource", u);
  }

  /** The documented example below is its domain followed by its path. */
  lemma ExamplePathJoined(domain: string, path: string, u: string)
    requires domain == "https://example.com" && path == "/path/to/resource"
    requires u == "https://example.com/path/to/resource"
    ensures "https://" + "example" + "." + "com" + path == u
  {
    assert "https://" + "example" + "." + "com" == domain;
    assert forall i :: 0 <= i < |u| ==> u[i] == (domain + path)[i];
  }

  /** Documented example: a path after the domain. */
  lemma UrlAcceptsPath(u: string)
    requires u == "https://example.com/path/to/resource"
    ensures IsUrl(u)
  {
    ExamplePathParts(u);
    UrlFromParts(u, "https://", "example", "com", "/path/to/resource");
  }

  /** Documented example: a sub-domain is part of the host. */
  lemma UrlAcceptsSubdomain()
    ensures IsUrl("https://sub.example.com")
  {
    SubdomainParts();
    assert "https://" + "sub.example" + "." + "com" + "" == "https://sub.example.com";
    UrlFromParts("https://sub.example.com", "https://", "sub.example", "com", "");
  }

  /** The parts of the documented example above. */
  lemma SubdomainParts()
    ensures IsProtocol("https://") && IsHost("sub.example") && IsTld("com") && IsPath("")
  {
    assert ToLowerCase("https://") == "https://";
    NamedClasses();
    UrlHostCharMeaning();
    AllInByMembers(UrlHostChar, "sub.example");
    AllInByMembers(Letter, "com");
  }

  /** Documented examples: strings without a dot are no URLs. */
  lemma UrlRejectsDotless()
    ensures !IsUrl("") && !IsUrl("https://") && !IsUrl("https:///path") && !IsUrl("https://example@com")
  {
    UrlHasDot("");
    UrlHasDot("https://");
    UrlHasDot("https:///path");
    UrlHasDot("https://example@com");
  }

  /** Documented example: a space inside the host. */
  lemma UrlRejectsSpace()
    ensures !IsUrl("https://example .com")
  {
    var s := "https://example .com";
    UrlNoWhitespace(s);
    assert IsWhitespace(s[15]);
  }

  /** Lower-casing keeps every character that is not an upper-case letter. */
  lemma LowerCharKeeps(c: char, d: char)
    requires !('A' <= d <= 'Z') && !('a' <= d <= 'z')
    ensures LowerChar(c) == d <==> c == d
  {
  }

  /** Where the parts of a URL sit in it, and what the protocol can be. */
  lemma UrlPartsPlaced(s: string, p: string, h: string, t: string, q: string)
    ensures UrlParts(s, p, h, t, q) ==>
      && |p| + |h| < |s| && s[|p| + |h|] == '.' && s[|p|..|p| + |h|] == h && s[..|p|] == p
      && (p == "" || (|p| == 7 && ToLowerCase(p) == "http://") || (|p| == 8 && ToLowerCase(p) == "https://"))
  {
    if UrlParts(s, p, h, t, q) {
      UrlPartsDot(s, p, h, t, q);
    }
  }

  /** A third slash right after `https://` is never part of a URL. */
  lemma UrlRejectsThirdSlash(s: string)
    ensures |s| >= 9 && ToLowerCase(s[..9]) == "https:///" ==> !IsUrl(s)
  {
    if |s| >= 9 && ToLowerCase(s[..9]) == "https:///" {
      var l := ToLowerCase(s[..9]);
      assert forall i :: 0 <= i < 9 ==> LowerChar(s[i]) == l[i] && l[i] != '.';
      LowerCharKeeps(s[5], ':');
      LowerCharKeeps(s[8], '/');
      assert !UrlHostChar.Has(':') && !UrlHostChar.Has('/') by {
        NamedClasses();
        UrlHostCharMeaning();
      }
      forall p, h, t, q ensures !UrlParts(s, p, h, t, q) {
        UrlPartsPlaced(s, p, h, t, q);
      }
      UrlMeaning(s);
    }
  }

  /** Documented example: extra slashes after the protocol. */
  lemma UrlRejectsExtraSlashes()
    ensures !IsUrl("https:////example.com")
  {
    var s := "https:////example.com";
    UrlRejectsThirdSlash(s);
    assert s[..9] == "https:///";
    assert ToLowerCase("https:///") == "https:///";
  }

  // ---------------------------------------------------------------------
  // Latitude and longitude
  // ---------------------------------------------------------------------

  /** `\d{1,3}`: the whole degrees. */
  const DegreeDigits := Between(Class(Digit), 1, 3)
  /** `\d{1,2}`: whole minutes or seconds. */
  const MinuteDigits := Between(Class(Digit), 1, 2)
  /** `\.\d+`: a decimal fraction. */
  const Fraction := Cat(Lit('.'), Plus(Class(Digit)))

  /** `\d{1,n}(?:\.\d+)?` */
  function BoundedDecimal(n: nat): Re
    requires 1 <= n
  {
    Cat(Between(Class(Digit), 1, n), Opt(Fraction))
  }

  /** `-?\d{1,3}(?:\.\d+)?`: one coordinate in decimal degrees. */
  const DecimalDegrees := Cat(Opt(Lit('-')), BoundedDecimal(3))
  /** `^-?\d{1,3}(?:\.\d+)?,\s*-?\d{1,3}(?:\.\d+)?$` */
  const DecimalPair := Cat(DecimalDegrees, Cat(Lit(','), Cat(Star(Class(Space)), DecimalDegrees)))

  /**
   * `\d{1,3}°\d{1,2}'\d{1,2}(\.\d+)?"[..]`: one coordinate in degrees,
   * minutes and seconds, ending in one of the hemisphere letters.
   */
  function DmsCoordinate(hemispheres: string): Re {
    Cat(DegreeDigits, Cat(Lit('°'), Cat(MinuteDigits, Cat(Lit('\''),
      Cat(BoundedDecimal(2), Cat(Lit('"'), Class(AnyOf(hemispheres))))))))
  }

  /** `^…[NS]\s+…[EW]$`: latitude, white space, longitude. */
  const DmsPair := Cat(DmsCoordinate("NS"), Cat(Plus(Class(Space)), DmsCoordinate("EW")))

  /**
   * `isLatLong`: false for the empty string; otherwise the trimmed input is
   * tested against the degrees-minutes-seconds pattern when `checkDMS` is
   * set and against the decimal-degrees pattern when it is not.
   */
  predicate IsLatLong(inputString: string, checkDMS: bool) {
    if inputString == "" then false
    else
      var trimmedInput := Trimmed(inputString);
      if checkDMS then Matches(DmsPair, trimmedInput) else Matches(DecimalPair, trimmedInput)
  }

  /** One to n digits, optionally followed by a dot and at least one digit. */
  predicate IsBoundedDecimal(u: string, n: nat) {
    || (1 <= |u| <= n && AllIn(Digit, u))
    || exists k :: 1 <= k <= n && k < |u| - 1 && u[k] == '.' && AllIn(Digit, u[..k]) && AllIn(Digit, u[k + 1..])
  }

  /** A decimal number of degrees, at most three whole digits, optionally negative. */
  predicate IsDegrees(x: string) {
    IsBoundedDecimal(x, 3) || (|x| > 0 && x[0] == '-' && IsBoundedDecimal(x[1..], 3))
  }

  lemma BoundedDecimalMeaning(n: nat, u: string)
    requires 1 <= n
    ensures Matches(BoundedDecimal(n), u) <==> IsBoundedDecimal(u, n)
  {
    var whole := Between(Class(Digit), 1, n);
    CatOptBack(whole, Fraction, u);
    BetweenClass(Digit, 1, n, u);
    BoundedRunThen(Digit, 1, n, Fraction, u);
    forall k | 1 <= k <= n && k <= |u|
      ensures Matches(Fraction, u[k..]) <==> k < |u| - 1 && u[k] == '.' && AllIn(Digit, u[k + 1..])
    {
      LitThenPlus(Digit, '.', u[k..]);
      if k < |u| {
        assert u[k..][1..] == u[k + 1..];
      }
    }
  }

  /** What `-?\d{1,3}(?:\.\d+)?` matches. */
  lemma DecimalDegreesMeaning(x: string)
    ensures Matches(DecimalDegrees, x) <==> IsDegrees(x)
  {
    CatOptClassFront(Single('-'), BoundedDecimal(3), x);
    BoundedDecimalMeaning(3, x);
    if |x| > 0 {
      BoundedDecimalMeaning(3, x[1..]);
    }
  }

  /** A bounded decimal starts with a digit and holds only digits and dots. */
  lemma BoundedDecimalChars(u: string, n: nat)
    ensures IsBoundedDecimal(u, n) ==> |u| > 0 && '0' <= u[0] <= '9'
    ensures IsBoundedDecimal(u, n) ==> forall i :: 0 <= i < |u| ==> u[i] == '.' || '0' <= u[i] <= '9'
  {
    if IsBoundedDecimal(u, n) && !(1 <= |u| <= n && AllIn(Digit, u)) {
      var k :| 1 <= k <= n && k < |u| - 1 && u[k] == '.' && AllIn(Digit, u[..k]) && AllIn(Digit, u[k + 1..]);
      assert u[..k][0] == u[0];
      forall i | 0 <= i < |u| ensures u[i] == '.' || '0' <= u[i] <= '9' {
        if i < k {
          assert u[..k][i] == u[i];
        } else if i > k {
          assert u[k + 1..][i - k - 1] == u[i];
        }
      }
    }
  }

  /** A number of degrees is made of digits, a dot and a leading minus only. */
  lemma DegreesChars(x: string)
    ensures IsDegrees(x) ==> |x| > 0 && !IsWhitespace(x[0])
    ensures IsDegrees(x) ==> forall i :: 0 <= i < |x| ==> x[i] == '-' || x[i] == '.' || '0' <= x[i] <= '9'
  {
    BoundedDecimalChars(x, 3);
    if |x| > 0 {
      BoundedDecimalChars(x[1..], 3);
      assert forall i :: 1 <= i < |x| ==> x[i] == x[1..][i - 1];
    }
  }

  /** What `\s*-?\d{1,3}(?:\.\d+)?` matches: degrees after any leading white space. */
  lemma SpacedDegreesMeaning(y: string)
    ensures Matches(Cat(Star(Class(Space)), DecimalDegrees), y) <==> IsDegrees(TrimStart(y))
  {
    StarRunThen(Space, DecimalDegrees, y);
    var t := TrimStart(y);
    forall k | 0 <= k <= |y| && AllIn(Space, y[..k]) && Matches(DecimalDegrees, y[k..])
      ensures IsDegrees(t)
    {
      DecimalDegreesMeaning(y[k..]);
      DegreesChars(y[k..]);
      assert y[k..][0] == y[k];
      TrimStartAt(y, k);
    }
    if IsDegrees(t) {
      DecimalDegreesMeaning(t);
      assert y[|y| - |t|..] == t;
    }
  }

  /**
   * What the decimal-degrees pattern matches: degrees, a comma, and degrees
   * after any white space.
   */
  lemma DecimalPairMeaning(t: string)
    ensures Matches(DecimalPair, t) <==>
      exists k :: 0 <= k < |t| && t[k] == ',' && IsDegrees(t[..k]) && IsDegrees(TrimStart(t[k + 1..]))
  {
    AroundLit(DecimalDegrees, ',', Cat(Star(Class(Space)), DecimalDegrees), t);
    forall k | 0 <= k < |t|
      ensures Matches(DecimalDegrees, t[..k]) <==> IsDegrees(t[..k])
      ensures Matches(Cat(Star(Class(Space)), DecimalDegrees), t[k + 1..]) <==> IsDegrees(TrimStart(t[k + 1..]))
    {
      DecimalDegreesMeaning(t[..k]);
      SpacedDegreesMeaning(t[k + 1..]);
    }
  }

  /** Degrees hold no comma, and neither does the white space before them. */
  lemma NoCommaInDegrees(x: string, y: string)
    ensures IsDegrees(x) ==> ',' !in x
    ensures IsDegrees(TrimStart(y)) ==> ',' !in y
  {
    DegreesChars(x);
    var r := TrimStart(y);
    DegreesChars(r);
    if IsDegrees(r) {
      var cut := |y| - |r|;
      forall i | 0 <= i < |y| ensures y[i] != ',' {
        if i < cut {
          assert y[..cut][i] == y[i];
        } else {
          assert r[i - cut] == y[i];
        }
      }
    }
  }

  /**
   * `isLatLong` without `checkDMS`: the trimmed input has exactly one comma,
   * with decimal degrees before it and decimal degrees after any white
   * space that follows it.
   */
  lemma LatLongDecimalMeaning(s: string)
    ensures IsLatLong(s, false) <==>
      var parts := Split(Trimmed(s), ',');
      |parts| == 2 && IsDegrees(parts[0]) && IsDegrees(TrimStart(parts[1]))
  {
    var t := Trimmed(s);
    var parts := Split(t, ',');
    DecimalPairMeaning(t);
    if s == "" {
      assert t == "";
      assert parts == [""];
    }
    if IsLatLong(s, false) {
      var k :| 0 <= k < |t| && t[k] == ',' && IsDegrees(t[..k]) && IsDegrees(TrimStart(t[k + 1..]));
      NoCommaInDegrees(t[..k], t[k + 1..]);
      SplitInTwo(t, ',', k);
    }
    if |parts| == 2 && IsDegrees(parts[0]) && IsDegrees(TrimStart(parts[1])) {
      assert multiset(t)[','] == 1;
      assert ',' in multiset(t);
      var k :| 0 <= k < |t| && t[k] == ',';
      SplitInTwo(t, ',', k);
    }
  }

  /** Seconds as a bounded decimal of at most two whole digits, a `"` and a hemisphere letter. */
  predicate IsSecondsThenHemisphere(z: string, hemispheres: string) {
    |z| >= 2 && z[|z| - 2] == '"' && z[|z| - 1] in hemispheres && IsBoundedDecimal(z[..|z| - 2], 2)
  }

  /** One or two digits of minutes, a `'`, then the seconds and hemisphere. */
  predicate IsMinutesThenRest(y: string, hemispheres: string) {
    exists j :: 1 <= j <= 2 && j < |y| && y[j] == '\'' && AllIn(Digit, y[..j]) && IsSecondsThenHemisphere(y[j + 1..], hemispheres)
  }

  /** One to three digits of degrees, a `°`, then the minutes, seconds and hemisphere. */
  predicate IsDms(x: string, hemispheres: string) {
    exists i :: 1 <= i <= 3 && i < |x| && x[i] == '°' && AllIn(Digit, x[..i]) && IsMinutesThenRest(x[i + 1..], hemispheres)
  }

  lemma SecondsMeaning(z: string, hemispheres: string)
    ensures Matches(Cat(BoundedDecimal(2), Cat(Lit('"'), Class(AnyOf(hemispheres)))), z) <==>
      IsSecondsThenHemisphere(z, hemispheres)
  {
    var mark := Cat(Lit('"'), Class(AnyOf(hemispheres)));
    CatFixedBack(BoundedDecimal(2), mark, z);
    if |z| >= 2 {
      var w := z[|z| - 2..];
      CatFixedFront(Lit('"'), Class(AnyOf(hemispheres)), w);
      assert w[..1] == [z[|z| - 2]] && w[1..] == [z[|z| - 1]];
      BoundedDecimalMeaning(2, z[..|z| - 2]);
    }
  }

  lemma MinutesMeaning(y: string, hemispheres: string)
    ensures Matches(Cat(MinuteDigits, Cat(Lit('\''), Cat(BoundedDecimal(2), Cat(Lit('"'), Class(AnyOf(hemispheres)))))), y) <==>
      IsMinutesThenRest(y, hemispheres)
  {
    var seconds := Cat(BoundedDecimal(2), Cat(Lit('"'), Class(AnyOf(hemispheres))));
    AroundLit(MinuteDigits, '\'', seconds, y);
    forall j | 0 <= j < |y|
      ensures Matches(MinuteDigits, y[..j]) <==> 1 <= j <= 2 && AllIn(Digit, y[..j])
      ensures Matches(seconds, y[j + 1..]) <==> IsSecondsThenHemisphere(y[j + 1..], hemispheres)
    {
      BetweenClass(Digit, 1, 2, y[..j]);
      SecondsMeaning(y[j + 1..], hemispheres);
    }
  }

  /** What one degrees-minutes-seconds coordinate pattern matches. */
  lemma DmsCoordinateMeaning(x: string, hemispheres: string)
    ensures Matches(DmsCoordinate(hemispheres), x) <==> IsDms(x, hemispheres)
  {
    var minutes := Cat(MinuteDigits, Cat(Lit('\''), Cat(BoundedDecimal(2), Cat(Lit('"'), Class(AnyOf(hemispheres))))));
    assert DmsCoordinate(hemispheres) == Cat(DegreeDigits, Cat(Lit('°'), minutes));
    AroundLit(DegreeDigits, '°', minutes, x);
    forall i | 0 <= i < |x|
      ensures Matches(DegreeDigits, x[..i]) <==> 1 <= i <= 3 && AllIn(Digit, x[..i])
      ensures Matches(minutes, x[i + 1..]) <==> IsMinutesThenRest(x[i + 1..], hemispheres)
    {
      BetweenClass(Digit, 1, 3, x[..i]);
      MinutesMeaning(x[i + 1..], hemispheres);
    }
  }

  /** A degrees-minutes-seconds coordinate starts with a digit. */
  lemma DmsStartsWithDigit(x: string, hemispheres: string)
    ensures IsDms(x, hemispheres) ==> |x| > 0 && '0' <= x[0] <= '9'
  {
    if IsDms(x, hemispheres) {
      var i :| 1 <= i <= 3 && i < |x| && x[i] == '°' && AllIn(Digit, x[..i]) && IsMinutesThenRest(x[i + 1..], hemispheres);
      assert x[..i][0] == x[0];
    }
  }

  /** What `\s+` and a coordinate match: white space, then the coordinate. */
  lemma SpacedDmsMeaning(y: string, hemispheres: string)
    ensures Matches(Cat(Plus(Class(Space)), DmsCoordinate(hemispheres)), y) <==>
      |y| > 0 && IsWhitespace(y[0]) && IsDms(TrimStart(y), hemispheres)
  {
    SpacedDmsRun(y, hemispheres);
    SpacedDmsTrim(y, hemispheres);
  }

  lemma SpacedDmsRun(y: string, hemispheres: string)
    ensures Matches(Cat(Plus(Class(Space)), DmsCoordinate(hemispheres)), y) <==>
      exists k :: 1 <= k <= |y| && AllIn(Space, y[..k]) && IsDms(y[k..], hemispheres)
  {
    var c := DmsCoordinate(hemispheres);
    PlusRunThen(Space, c, y);
    forall k | 1 <= k <= |y|
      ensures Matches(c, y[k..]) <==> IsDms(y[k..], hemispheres)
    {
      DmsCoordinateMeaning(y[k..], hemispheres);
    }
  }

  lemma SpacedDmsTrim(y: string, hemispheres: string)
    ensures (exists k :: 1 <= k <= |y| && AllIn(Space, y[..k]) && IsDms(y[k..], hemispheres)) <==>
      |y| > 0 && IsWhitespace(y[0]) && IsDms(TrimStart(y), hemispheres)
  {
    forall x ensures IsDms(x, hemispheres) ==> |x| > 0 && !IsWhitespace(x[0]) {
      DmsStartsWithDigit(x, hemispheres);
    }
    SpaceRunThen(y, x => IsDms(x, hemispheres));
  }

  /** A latitude coordinate, white space and a longitude coordinate. */
  lemma DmsPairOf(t: string, north: string, east: string)
    ensures Matches(Cat(DmsCoordinate(north), Cat(Plus(Class(Space)), DmsCoordinate(east))), t) <==>
      exists k :: 0 <= k < |t| && IsDms(t[..k], north) && IsWhitespace(t[k]) && IsDms(TrimStart(t[k..]), east)
  {
    if Matches(Cat(DmsCoordinate(north), Cat(Plus(Class(Space)), DmsCoordinate(east))), t) {
      DmsPairSplit(t, north, east);
    }
    if exists k :: 0 <= k < |t| && IsDms(t[..k], north) && IsWhitespace(t[k]) && IsDms(TrimStart(t[k..]), east) {
      var k :| 0 <= k < |t| && IsDms(t[..k], north) && IsWhitespace(t[k]) && IsDms(TrimStart(t[k..]), east);
      DmsPairJoin(t, north, east, k);
    }
  }

  /** A match of a DMS pair cuts into a coordinate, white space and a coordinate. */
  lemma DmsPairSplit(t: string, north: string, east: string)
    requires Matches(Cat(DmsCoordinate(north), Cat(Plus(Class(Space)), DmsCoordinate(east))), t)
    ensures exists k :: 0 <= k < |t| && IsDms(t[..k], north) && IsWhitespace(t[k]) && IsDms(TrimStart(t[k..]), east)
  {
    var rest := Cat(Plus(Class(Space)), DmsCoordinate(east));
    var k :| 0 <= k <= |t| && Matches(DmsCoordinate(north), t[..k]) && Matches(rest, t[k..]);
    DmsPairPartsAt(t, north, east, k);
  }

  /** A coordinate, white space and a coordinate make a match of a DMS pair. */
  lemma DmsPairJoin(t: string, north: string, east: string, k: nat)
    requires k < |t| && IsDms(t[..k], north) && IsWhitespace(t[k]) && IsDms(TrimStart(t[k..]), east)
    ensures Matches(Cat(DmsCoordinate(north), Cat(Plus(Class(Space)), DmsCoordinate(east))), t)
  {
    DmsPairPartsAt(t, north, east, k);
    CatJoin(DmsCoordinate(north), Cat(Plus(Class(Space)), DmsCoordinate(east)), t, k);
  }

  /** Either side of a cut of a DMS pair, in words. */
  lemma DmsPairPartsAt(t: string, north: string, east: string, k: nat)
    requires k <= |t|
    ensures Matches(DmsCoordinate(north), t[..k]) <==> IsDms(t[..k], north)
    ensures Matches(Cat(Plus(Class(Space)), DmsCoordinate(east)), t[k..]) <==>
      k < |t| && IsWhitespace(t[k]) && IsDms(TrimStart(t[k..]), east)
  {
    DmsCoordinateMeaning(t[..k], north);
    SpacedDmsMeaning(t[k..], east);
    if k < |t| {
      assert t[k..][0] == t[k];
    }
  }

  /**
   * What the degrees-minutes-seconds pattern matches: a latitude ending in
   * N or S, white space, and a longitude ending in E or W.
   */
  lemma DmsPairMeaning(t: string)
    ensures Matches(DmsPair, t) <==>
      exists k :: 0 <= k < |t| && IsDms(t[..k], "NS") && IsWhitespace(t[k]) && IsDms(TrimStart(t[k..]), "EW")
  {
    DmsPairOf(t, "NS", "EW");
  }

  /**
   * `isLatLong` with `checkDMS`: the trimmed input is a latitude in degrees,
   * minutes and seconds ending in N or S, white space, and a longitude
   * ending in E or W.
   */
  lemma LatLongDmsMeaning(s: string)
    ensures IsLatLong(s, true) <==>
      var t := Trimmed(s);
      exists k :: 0 <= k < |t| && IsDms(t[..k], "NS") && IsWhitespace(t[k]) && IsDms(TrimStart(t[k..]), "EW")
  {
    DmsPairMeaning(Trimmed(s));
  }

  /** White space around the input never changes the verdict, in either mode. */
  lemma LatLongTrimmed(s: string, checkDMS: bool)
    ensures IsLatLong(Trimmed(s), checkDMS) == IsLatLong(s, checkDMS)
  {
    TrimmedIdempotent(s);
    if Trimmed(s) == "" {
      EmptyNotLatLong(Trimmed(s));
    }
  }

  /** Neither pattern accepts the empty string. */
  lemma EmptyNotLatLong(t: string)
    requires t == ""
    ensures !Matches(DecimalPair, t) && !Matches(DmsPair, t)
  {
    DecimalPairMeaning(t);
    DmsPairMeaning(t);
  }

  /** No input is accepted in both modes: one holds a `°`, the other never does. */
  lemma LatLongModesExclusive(s: string)
    ensures !(IsLatLong(s, true) && IsLatLong(s, false))
  {
    var t := Trimmed(s);
    DegreeSignSeparatesModes();
    if IsLatLong(s, true) {
      MatchHasNeeded(DmsPair, '°', t);
      if Matches(DecimalPair, t) {
        MatchOnlyAdmitted(DecimalPair, t);
      }
    }
  }

  /** Every degrees-minutes-seconds match holds a `°`, and no decimal-degrees match can. */
  lemma DegreeSignSeparatesModes()
    ensures Needs(DmsPair, '°') && !Admits(DecimalPair, '°')
  {
  }

  /** Whole degrees with a fraction. */
  lemma FractionalDegrees(w: string, f: string)
    requires 1 <= |w| <= 3 && AllIn(Digit, w) && |f| > 0 && AllIn(Digit, f)
    ensures IsDegrees(w + "." + f) && IsDegrees("-" + w + "." + f)
  {
    var u := w + "." + f;
    assert u[..|w|] == w && u[|w|] == '.' && u[|w| + 1..] == f;
    assert IsBoundedDecimal(u, 3);
    assert ("-" + w + "." + f)[1..] == u;
  }

  /** Degrees at `t[..k]`, a comma at `k`, and degrees after white space. */
  predicate IsDecimalPairAt(t: string, k: nat)
  {
    k < |t| && t[k] == ',' && IsDegrees(t[..k]) && IsDegrees(TrimStart(t[k + 1..]))
  }

  /** Degrees, a comma and degrees after white space, with nothing around them, are accepted. */
  lemma DecimalLatLongAt(t: string, k: nat)
    requires IsDecimalPairAt(t, k)
    ensures IsLatLong(t, false)
  {
    DecimalPairAt(t, k);
    DecimalUntrimmed(t, k, TrimStart(t[k + 1..]));
  }

  /** Degrees, a comma, white space and degrees: `trim` leaves the string as it is. */
  lemma DecimalUntrimmed(t: string, k: nat, r: string)
    requires k < |t| && IsDegrees(t[..k])
    requires |r| <= |t| - k - 1 && r == t[|t| - |r|..] && IsDegrees(r)
    ensures Trimmed(t) == t
  {
    DegreesChars(t[..k]);
    DegreesChars(r);
    assert t[..k][0] == t[0];
    assert r[|r| - 1] == t[|t| - 1];
    TrimmedUnchanged(t);
  }

  /** A DMS coordinate ends with its hemisphere letter. */
  lemma DmsEndsWithHemisphere(x: string, hemispheres: string)
    ensures IsDms(x, hemispheres) ==> |x| > 0 && x[|x| - 1] in hemispheres
  {
    if IsDms(x, hemispheres) {
      var i :| 1 <= i <= 3 && i < |x| && x[i] == '°' && AllIn(Digit, x[..i]) && IsMinutesThenRest(x[i + 1..], hemispheres);
      var y := x[i + 1..];
      var j :| 1 <= j <= 2 && j < |y| && y[j] == '\'' && AllIn(Digit, y[..j]) && IsSecondsThenHemisphere(y[j + 1..], hemispheres);
      var z := y[j + 1..];
      assert z[|z| - 1] == x[|x| - 1];
    }
  }

  /** `t` is a DMS latitude, one white-space character at `k`, then a DMS longitude. */
  predicate IsDmsPairAt(t: string, k: nat)
  {
    k + 1 < |t| && IsDms(t[..k], "NS") && IsWhitespace(t[k]) && IsDms(t[k + 1..], "EW")
  }

  /**
   * A string that is a latitude in DMS, one white space character and a
   * longitude in DMS passes `isLatLong` with `checkDMS`.
   */
  lemma DmsLatLongAt(t: string, k: nat)
    requires k + 1 < |t| && IsDms(t[..k], "NS") && IsWhitespace(t[k]) && IsDms(t[k + 1..], "EW")
    ensures IsLatLong(t, true)
  {
    DmsStartsWithDigit(t[k + 1..], "EW");
    assert TrimStart(t[k..]) == t[k + 1..] by {
      var y := t[k..];
      assert y[..1] == [t[k]] && y[1..] == t[k + 1..];
      TrimStartAt(y, 1);
    }
    DmsPairAt(t, k);
    DmsUntrimmed(t, k);
  }

  lemma DmsPairAt(t: string, k: nat)
    requires k < |t| && IsDms(t[..k], "NS") && IsWhitespace(t[k]) && IsDms(TrimStart(t[k..]), "EW")
    ensures Matches(DmsPair, t)
  {
    DmsPairMeaning(t);
  }

  lemma DmsUntrimmed(t: string, k: nat)
    requires k + 1 < |t| && IsDms(t[..k], "NS") && IsDms(t[k + 1..], "EW")
    ensures Trimmed(t) == t
  {
    DmsStartsWithDigit(t[..k], "NS");
    DmsEndsWithHemisphere(t[k + 1..], "EW");
    assert t[..k][0] == t[0];
    assert t[k + 1..][|t| - k - 2] == t[|t| - 1];
    TrimmedUnchanged(t);
  }

  /** `t` is decimal degrees, a comma and one white-space character at `k`, then decimal degrees. */
  predicate IsSpacedPairAt(t: string, k: nat)
  {
    k + 2 < |t| && t[k] == ',' && IsWhitespace(t[k + 1]) && IsDegrees(t[..k]) && IsDegrees(t[k + 2..])
  }

  /** Degrees, a comma, one white space character and degrees are accepted. */
  lemma DecimalLatLongSpacedAt(t: string, k: nat)
    requires IsSpacedPairAt(t, k)
    ensures IsLatLong(t, false)
  {
    assert TrimStart(t[k + 1..]) == t[k + 2..] by {
      var y := t[k + 1..];
      DegreesChars(t[k + 2..]);
      assert y[..1] == [t[k + 1]] && y[1..] == t[k + 2..];
      TrimStartAt(y, 1);
    }
    DecimalLatLongAt(t, k);
  }

  lemma DecimalPairAt(t: string, k: nat)
    requires k < |t| && t[k] == ',' && IsDegrees(t[..k]) && IsDegrees(TrimStart(t[k + 1..]))
    ensures Matches(DecimalPair, t)
  {
    DecimalPairMeaning(t);
  }

  /** The latitude of the first documented decimal example. */
  lemma LatitudeOfFirstExample(s: string)
    requires s == "34.052235"
    ensures IsDegrees(s)
  {
    var w, f := "34", "052235";
    AllInByMembers(Digit, w);
    AllInByMembers(Digit, f);
    FractionalDegrees(w, f);
    assert w + "." + f == s;
  }

  /** The longitude of the first documented decimal example. */
  lemma LongitudeOfFirstExample(s: string)
    requires s == "-118.243683"
    ensures IsDegrees(s)
  {
    var w, f := "118", "243683";
    AllInByMembers(Digit, w);
    AllInByMembers(Digit, f);
    FractionalDegrees(w, f);
    assert "-" + w + "." + f == s;
  }

  /** The latitude of the second documented decimal example. */
  lemma LatitudeOfSecondExample(s: string)
    requires s == "37.7749"
    ensures IsDegrees(s)
  {
    var w, f := "37", "7749";
    AllInByMembers(Digit, w);
    AllInByMembers(Digit, f);
    FractionalDegrees(w, f);
    assert w + "." + f == s;
  }

  /** The longitude of the second documented decimal example. */
  lemma LongitudeOfSecondExample(s: string)
    requires s == "-122.4194"
    ensures IsDegrees(s)
  {
    var w, f := "122", "4194";
    AllInByMembers(Digit, w);
    AllInByMembers(Digit, f);
    FractionalDegrees(w, f);
    assert "-" + w + "." + f == s;
  }

  /** Documented example: decimal degrees separated by a comma. */
  lemma LatLongAcceptsDecimal(t: string)
    requires t == "34.052235,-118.243683"
    ensures IsLatLong(t, false)
  {
    DecimalExampleHalves(t);
    DecimalLatLongAt(t, 9);
  }

  /** The two halves of the first documented decimal example. */
  lemma DecimalExampleHalves(t: string)
    requires t == "34.052235,-118.243683"
    ensures IsDecimalPairAt(t, 9)
  {
    DecimalExampleSlices(t);
    LatitudeOfFirstExample(t[..9]);
    LongitudeOfFirstExample(t[10..]);
    TrimStartAt(t[10..], 0);
  }

  /** Where the two halves of the first documented decimal example sit. */
  lemma DecimalExampleSlices(t: string)
    requires t == "34.052235,-118.243683"
    ensures |t| == 21 && t[..9] == "34.052235" && t[9] == ',' && t[10..] == "-118.243683"
  {
  }

  /** The degrees-minutes-seconds example passes with `checkDMS` set, and fails without it. */
  lemma LatLongAcceptsDms(t: string)
    requires t == "37°46'30\"N 122°25'10\"W"
    ensures IsLatLong(t, true) && !IsLatLong(t, false)
  {
    DmsExampleHalves(t);
    DmsOnlyAt(t, 10);
  }

  /** The two halves of the documented DMS example are coordinates. */
  lemma DmsExampleHalves(t: string)
    requires t == "37°46'30\"N 122°25'10\"W"
    ensures IsDmsPairAt(t, 10)
  {
    DmsExampleSlices(t);
    NorthOfDmsExample(t[..10]);
    WestOfDmsExample(t[11..]);
  }

  /** Two DMS coordinates around one white-space character pass only in DMS mode. */
  lemma DmsOnlyAt(t: string, k: nat)
    requires IsDmsPairAt(t, k)
    ensures IsLatLong(t, true) && !IsLatLong(t, false)
  {
    DmsLatLongAt(t, k);
    LatLongModesExclusive(t);
  }

  /** Where the two halves of the documented DMS example sit. */
  lemma DmsExampleSlices(t: string)
    requires t == "37°46'30\"N 122°25'10\"W"
    ensures |t| == 22 && t[..10] == "37°46'30\"N" && t[10] == ' ' && t[11..] == "122°25'10\"W"
  {
  }

  /** The northern half of the documented DMS example is a latitude. */
  lemma NorthOfDmsExample(x: string)
    requires x == "37°46'30\"N"
    ensures IsDms(x, "NS")
  {
    var y := x[3..];
    var z := y[3..];
    assert z[..2] == "30" && z[2] == '"' && z[3] in "NS";
    AllInByMembers(Digit, z[..2]);
    assert IsSecondsThenHemisphere(z, "NS");
    assert y[..2] == "46" && y[2] == '\'';
    AllInByMembers(Digit, y[..2]);
    assert IsMinutesThenRest(y, "NS");
    AllInByMembers(Digit, x[..2]);
    assert x[2] == '°';
  }

  /** The western half of the documented DMS example is a longitude. */
  lemma WestOfDmsExample(x: string)
    requires x == "122°25'10\"W"
    ensures IsDms(x, "EW")
  {
    var y := x[4..];
    var z := y[3..];
    assert z[..2] == "10" && z[2] == '"' && z[3] in "EW";
    AllInByMembers(Digit, z[..2]);
    assert IsSecondsThenHemisphere(z, "EW");
    assert y[..2] == "25" && y[2] == '\'';
    AllInByMembers(Digit, y[..2]);
    assert IsMinutesThenRest(y, "EW");
    AllInByMembers(Digit, x[..3]);
    assert x[3] == '°';
  }

  /** The tested DMS example with fractional seconds passes with `checkDMS` set, and fails without it. */
  lemma LatLongAcceptsDmsFraction(t: string)
    requires t == "34°3'8.1\"N 118°14'37.2\"W"
    ensures IsLatLong(t, true) && !IsLatLong(t, false)
  {
    FractionExampleHalves(t);
    DmsOnlyAt(t, 10);
  }

  /** The two halves of the tested DMS example are coordinates. */
  lemma FractionExampleHalves(t: string)
    requires t == "34°3'8.1\"N 118°14'37.2\"W"
    ensures IsDmsPairAt(t, 10)
  {
    FractionExampleSlices(t);
    NorthOfFractionExample(t[..10]);
    WestOfFractionExample(t[11..]);
  }

  /** Where the two halves of the tested DMS example sit. */
  lemma FractionExampleSlices(t: string)
    requires t == "34°3'8.1\"N 118°14'37.2\"W"
    ensures |t| == 24 && t[..10] == "34°3'8.1\"N" && t[10] == ' ' && t[11..] == "118°14'37.2\"W"
  {
  }

  /** The northern half of the tested DMS example is a latitude with fractional seconds. */
  lemma NorthOfFractionExample(x: string)
    requires x == "34°3'8.1\"N"
    ensures IsDms(x, "NS")
  {
    var y := x[3..];
    var z := y[2..];
    var u := z[..3];
    assert u[1] == '.' && u[..1] == "8" && u[2..] == "1";
    AllInByMembers(Digit, u[..1]);
    AllInByMembers(Digit, u[2..]);
    assert IsBoundedDecimal(u, 2);
    assert z[3] == '"' && z[4] in "NS";
    assert IsSecondsThenHemisphere(z, "NS");
    assert y[1] == '\'' && y[..1] == "3";
    AllInByMembers(Digit, y[..1]);
    assert IsMinutesThenRest(y, "NS");
    AllInByMembers(Digit, x[..2]);
    assert x[2] == '°';
  }

  /** The western half of the tested DMS example is a longitude with fractional seconds. */
  lemma WestOfFractionExample(x: string)
    requires x == "118°14'37.2\"W"
    ensures IsDms(x, "EW")
  {
    var y := x[4..];
    var z := y[3..];
    var u := z[..4];
    assert u[2] == '.' && u[..2] == "37" && u[3..] == "2";
    AllInByMembers(Digit, u[..2]);
    AllInByMembers(Digit, u[3..]);
    assert IsBoundedDecimal(u, 2);
    assert z[4] == '"' && z[5] in "EW";
    assert IsSecondsThenHemisphere(z, "EW");
    assert y[2] == '\'' && y[..2] == "14";
    AllInByMembers(Digit, y[..2]);
    assert IsMinutesThenRest(y, "EW");
    AllInByMembers(Digit, x[..3]);
    assert x[3] == '°';
  }

  /** The tested DMS example with `'` for seconds and a trailing word is refused. */
  lemma LatLongRejectsDmsExtra(t: string)
    requires t == "34°3'8.1'N 118°14'37.2'W extra"
    ensures !IsLatLong(t, true)
  {
    assert forall m :: 0 <= m < |t| ==> t[m] != '"';
    NoSecondsMarkRefused(t);
  }

  /** Every DMS coordinate marks its seconds with `"`: without one, no input passes with `checkDMS`. */
  lemma NoSecondsMarkRefused(s: string)
    requires '"' !in s
    ensures !IsLatLong(s, true)
  {
    TrimmedKeepsOut(s, '"');
    if IsLatLong(s, true) {
      DmsNeedsSecondsMark();
      MatchHasNeeded(DmsPair, '"', Trimmed(s));
    }
  }

  /** Every match of the DMS pattern holds a `"`. */
  lemma DmsNeedsSecondsMark()
    ensures Needs(DmsPair, '"')
  {
    CoordinateNeedsSecondsMark("NS");
  }

  /** Every match of one DMS coordinate holds a `"`. */
  lemma CoordinateNeedsSecondsMark(hemispheres: string)
    ensures Needs(DmsCoordinate(hemispheres), '"')
  {
    var seconds := Cat(BoundedDecimal(2), Cat(Lit('"'), Class(AnyOf(hemispheres))));
    assert Needs(seconds, '"');
    var minutes := Cat(MinuteDigits, Cat(Lit('\''), seconds));
    assert Needs(minutes, '"');
    assert DmsCoordinate(hemispheres) == Cat(DegreeDigits, Cat(Lit('°'), minutes));
  }

  /** Documented example: white space after the comma is allowed. */
  lemma LatLongAcceptsSpaced(t: string)
    requires t == "37.7749, -122.4194"
    ensures IsLatLong(t, false)
  {
    SpacedExampleHalves(t);
    DecimalLatLongSpacedAt(t, 7);
  }

  /** The two halves of the documented spaced example are decimal degrees. */
  lemma SpacedExampleHalves(t: string)
    requires t == "37.7749, -122.4194"
    ensures IsSpacedPairAt(t, 7)
  {
    assert t[..7] == "37.7749" && t[8] == ' ' && t[9..] == "-122.4194";
    LatitudeOfSecondExample(t[..7]);
    LongitudeOfSecondExample(t[9..]);
  }

  /** Documented example: a third comma-separated field is refused. */
  lemma LatLongRejectsExtraField(t: string)
    requires t == "34.052235,-118.243683,extra"
    ensures !IsLatLong(t, false)
  {
    assert t[0] == '3' && t[|t| - 1] == 'a' && t[9] == ',' && t[21] == ',';
    TwoCommasRefused(t, 9, 21);
  }

  /** A string with two commas, trimmed as it is, is no pair of decimal degrees. */
  lemma TwoCommasRefused(t: string, i: nat, j: nat)
    requires i < j < |t| && t[i] == ',' && t[j] == ','
    requires !IsWhitespace(t[0]) && !IsWhitespace(t[|t| - 1])
    ensures !IsLatLong(t, false)
  {
    TrimmedUnchanged(t);
    forall k | 0 <= k < |t|
      ensures !(t[k] == ',' && IsDegrees(t[..k]) && IsDegrees(TrimStart(t[k + 1..])))
    {
      TwoCommasAt(t, k, i, j);
    }
    DecimalPairMeaning(t);
  }

  /** With commas at `i` and `j`, no cut leaves degrees on both sides of a comma. */
  lemma TwoCommasAt(t: string, k: nat, i: nat, j: nat)
    requires i < j < |t| && t[i] == ',' && t[j] == ',' && k < |t|
    ensures !(t[k] == ',' && IsDegrees(t[..k]) && IsDegrees(TrimStart(t[k + 1..])))
  {
    NoCommaInDegrees(t[..k], t[k + 1..]);
    if k < j {
      assert t[k + 1..][j - k - 1] == ',';
    } else {
      assert t[..k][i] == ',';
    }
  }
}
