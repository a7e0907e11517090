/** The field-validation rules of the registration form.

    Each validator runs an ordered list of checks and the first failing
    check decides the outcome. A string is a sequence of `char`s, each
    standing for one user-perceived character (Swift's `count` counts
    grapheme clusters). The validators that consult Unicode categories take
    the platform tables `u` as a parameter; the lemmas that need facts about
    those tables require `Consistent(u)`. */
module ValidationService {
  import opened CharacterSets
  import opened EmailPatterns

  // ---------------------------------------------------------------------
  // Outcomes

  datatype EmailValidationError = MissingAtSymbol | MissingDomain | InvalidFormat | Valid
  {
    /** The message shown under the field; the source's texts are
        localized, here only the kind of message is kept. */
    function ErrorMessage(): (m: string)
      ensures m == "" <==> Valid?
    {
      match this
      case MissingAtSymbol => "email must contain '@'"
      case MissingDomain => "email must contain a domain name"
      case InvalidFormat => "email has an invalid format"
      case Valid => ""
    }
  }

  /** `LenthIncorrect` keeps the spelling of the source's `lenthIncorrect`. */
  datatype PasswordValidationError =
    LenthIncorrect | MissingDigit | ContainsWhitespace | ContainsNonLatinCharacters | Valid
  {
    function ErrorMessage(): (m: string)
      ensures m == "" <==> Valid?
    {
      match this
      case LenthIncorrect => "password must be 6 to 20 characters long"
      case MissingDigit => "password must contain a digit"
      case ContainsWhitespace => "password must not contain spaces"
      case ContainsNonLatinCharacters => "password must contain only latin characters"
      case Valid => ""
    }
  }

  datatype NameValidationError = TooShort | TooLong | ContainsDigits | ContainsSpecialCharacters | Valid
  {
    function ErrorMessage(): (m: string)
      ensures m == "" <==> Valid?
    {
      match this
      case TooShort => "name must be at least 2 characters long"
      case TooLong => "name must be at most 50 characters long"
      case ContainsDigits => "name must not contain digits"
      case ContainsSpecialCharacters => "name must not contain special characters"
      case Valid => ""
    }
  }

  // ---------------------------------------------------------------------
  // `rangeOfCharacter(from:) != nil` for the sets the validators use

  predicate HasDecimalDigit(u: UnicodeTables, s: string) {
    exists i :: 0 <= i < |s| && u.isDecimalDigit(s[i])
  }

  predicate HasWhitespace(u: UnicodeTables, s: string) {
    exists i :: 0 <= i < |s| && u.isWhitespace(s[i])
  }

  /** Some character is outside the password allow-list. */
  predicate HasNonLatin(s: string) {
    exists i :: 0 <= i < |s| && !InPasswordAllowList(s[i])
  }

  /** Some character is neither a letter nor whitespace. */
  predicate HasSpecial(u: UnicodeTables, s: string) {
    exists i :: 0 <= i < |s| && !u.isLetter(s[i]) && !u.isWhitespace(s[i])
  }

  // ---------------------------------------------------------------------
  // Email

  /** The email validator: contains `@`, then `.*@.+\..+`, then the full
      format pattern. */
  function ValidateEmail(value: string): (r: EmailValidationError)
    ensures r == MissingAtSymbol <==> '@' !in value
    ensures r == MissingDomain <==> '@' in value && !MatchesDomainPattern(value)
    ensures r == InvalidFormat <==> '@' in value && MatchesDomainPattern(value) && !MatchesEmailPattern(value)
    ensures r.Valid? <==> MatchesEmailPattern(value)
  {
    HasDomainPartIff(value);
    FormatRecognisedIff(value);
    EmailPatternImpliesDomainPattern(value);
    if '@' !in value then MissingAtSymbol
    else if !HasDomainPart(value) then MissingDomain
    else if !FormatRecognised(value) then InvalidFormat
    else EmailValidationError.Valid
  }

  /** Every outcome other than `MissingAtSymbol` comes with an `@` followed,
      at least two places later, by a `.` that is not the last character,
      and with no line terminator anywhere. */
  lemma EmailPastDomainCheck(value: string)
    ensures ValidateEmail(value) == InvalidFormat || ValidateEmail(value).Valid? ==>
      NoLineTerminator(value)
      && exists i, j :: 0 <= i && i + 1 < j < |value| - 1 && value[i] == '@' && value[j] == '.'
  {
    if MatchesDomainPattern(value) {
      var i, j :| DomainPartAt(value, i, j);
    }
  }

  /** A valid email is `local @ domain . tld`; the `@` is its only `@` and
      the tld is exactly what follows its last `.`. */
  lemma {:induction false} ValidEmailShape(value: string)
    requires ValidateEmail(value).Valid?
    ensures exists local, domain, tld :: IsEmailSplit(value, local, domain, tld)
    ensures forall i, j :: 0 <= i < |value| && 0 <= j < |value| && value[i] == '@' && value[j] == '@' ==> i == j
    ensures LastIndexOf(value, '.').Some?
    ensures IsTld(value[LastIndexOf(value, '.').value + 1..])
  {
    var local, domain, tld :| IsEmailSplit(value, local, domain, tld);
    EmailSplitForced(value, local, domain, tld);
    SplitLayout(value, local, domain, tld);
  }

  /** Building an email from parts in their classes gives `Valid`. */
  lemma {:induction false} EmailFromParts(local: string, domain: string, tld: string)
    requires IsLocalPart(local) && IsDomainPart(domain) && IsTld(tld)
    ensures ValidateEmail(local + "@" + domain + "." + tld).Valid?
  {
    assert IsEmailSplit(local + "@" + domain + "." + tld, local, domain, tld);
  }

  lemma EmailEmptyIsMissingAt()
    ensures ValidateEmail("") == MissingAtSymbol
  {
  }

  lemma EmailExampleValid()
    ensures ValidateEmail("user@example.com").Valid?
  {
    var s := "user@example.com";
    assert IsLocalPart("user") && IsDomainPart("example") && IsTld("com");
    assert s == "user" + "@" + "example" + "." + "com";
    assert IsEmailSplit(s, "user", "example", "com");
  }

  lemma EmailExampleMissingDomain()
    ensures ValidateEmail("user@example") == MissingDomain
  {
    var s := "user@example";
    assert forall j :: 0 <= j < |s| ==> s[j] != '.';
  }

  /** A space in the domain passes the `.*@.+\..+` check but not the
      format check. */
  lemma EmailExampleInvalidFormat()
    ensures ValidateEmail("user@exa mple.com") == InvalidFormat
  {
    var t := "user@exa mple.com";
    assert NoLineTerminator(t);
    assert DomainPartAt(t, 4, 13);
    NonPrintableBreaksPattern(t, 8);
  }

  // ---------------------------------------------------------------------
  // Password

  /** The password validator: length in [6, 20], a decimal digit, no
      whitespace, every character in the allow-list. */
  function ValidatePassword(u: UnicodeTables, value: string): (r: PasswordValidationError)
    ensures r == LenthIncorrect <==> |value| < 6 || |value| > 20
    ensures r == MissingDigit ==> 6 <= |value| <= 20 && !HasDecimalDigit(u, value)
    ensures r == ContainsWhitespace ==> 6 <= |value| <= 20 && HasDecimalDigit(u, value) && HasWhitespace(u, value)
    ensures r == ContainsNonLatinCharacters ==>
      6 <= |value| <= 20 && HasDecimalDigit(u, value) && !HasWhitespace(u, value) && HasNonLatin(value)
  {
    if |value| < 6 || |value| > 20 then LenthIncorrect
    else if !HasDecimalDigit(u, value) then MissingDigit
    else if HasWhitespace(u, value) then ContainsWhitespace
    else if HasNonLatin(value) then ContainsNonLatinCharacters
    else PasswordValidationError.Valid
  }

  /** Reference definition of a valid password: 6 to 20 characters, all in
      the allow-list, at least one of them an ASCII digit. The allow-list
      meets the decimal digits only in `0`-`9`, and holds no whitespace. */
  lemma PasswordValidIff(u: UnicodeTables, value: string)
    requires Consistent(u)
    ensures ValidatePassword(u, value).Valid? <==>
      6 <= |value| <= 20
      && (forall i :: 0 <= i < |value| ==> InPasswordAllowList(value[i]))
      && (exists i :: 0 <= i < |value| && IsAsciiDigit(value[i]))
  {
  }

  lemma AllowedDigitIsAscii(u: UnicodeTables, c: char)
    requires Consistent(u) && InPasswordAllowList(c) && u.isDecimalDigit(c)
    ensures IsAsciiDigit(c)
  {
  }

  lemma AllowedIsNotWhitespace(u: UnicodeTables, c: char)
    requires Consistent(u) && InPasswordAllowList(c)
    ensures !u.isWhitespace(c)
  {
  }

  /** A `Valid` password has passed every earlier check. */
  lemma PasswordValidPassedEarlierChecks(u: UnicodeTables, value: string)
    requires ValidatePassword(u, value).Valid?
    ensures 6 <= |value| <= 20 && HasDecimalDigit(u, value) && !HasWhitespace(u, value)
    ensures forall i :: 0 <= i < |value| ==> InPasswordAllowList(value[i])
  {
  }

  /** The length check comes first: "abc" has no digit but reports the
      length. */
  lemma PasswordExampleTooShort(u: UnicodeTables)
    ensures ValidatePassword(u, "abc") == LenthIncorrect
  {
  }

  lemma PasswordExampleMissingDigit(u: UnicodeTables)
    requires Consistent(u)
    ensures ValidatePassword(u, "abcdef") == MissingDigit
  {
  }

  lemma PasswordExampleWhitespace(u: UnicodeTables)
    requires Consistent(u)
    ensures ValidatePassword(u, "abc 123") == ContainsWhitespace
  {
    var w := "abc 123";
    assert u.isDecimalDigit(w[4]) && u.isWhitespace(w[3]);
  }

  /** Cyrillic letters are outside the allow-list. */
  lemma PasswordExampleCyrillic(u: UnicodeTables)
    requires Consistent(u)
    ensures ValidatePassword(u, "\U{43F}\U{430}\U{440}\U{43E}\U{43B}\U{44C}1") == ContainsNonLatinCharacters
  {
    var p := "\U{43F}\U{430}\U{440}\U{43E}\U{43B}\U{44C}1";
    assert u.isDecimalDigit(p[6]) && !InPasswordAllowList(p[0]);
    assert forall i :: 0 <= i < 6 ==> IsBasicCyrillic(p[i]);
    assert !HasWhitespace(u, p) by {
      forall i | 0 <= i < |p|
        ensures !u.isWhitespace(p[i])
      {
        if i < 6 {
          assert u.isLetter(p[i]);
        } else {
          assert u.isDecimalDigit(p[i]);
        }
      }
    }
  }

  lemma PasswordExampleValid(u: UnicodeTables)
    requires Consistent(u)
    ensures ValidatePassword(u, "abc123").Valid?
  {
    var p := "abc123";
    PasswordValidIff(u, p);
    assert IsAsciiDigit(p[3]);
    assert forall i :: 0 <= i < |p| ==> InPasswordAllowList(p[i]);
  }

  // ---------------------------------------------------------------------
  // Name

  /** The name validator: length in [2, 50], no decimal digit, every
      character a letter or whitespace. */
  function ValidateName(u: UnicodeTables, value: string): (r: NameValidationError)
    ensures r == TooShort <==> |value| < 2
    ensures r == TooLong <==> |value| > 50
    ensures r == ContainsDigits ==> 2 <= |value| <= 50 && HasDecimalDigit(u, value)
    ensures r == ContainsSpecialCharacters ==>
      2 <= |value| <= 50 && !HasDecimalDigit(u, value) && HasSpecial(u, value)
  {
    if |value| < 2 then TooShort
    else if |value| > 50 then TooLong
    else if HasDecimalDigit(u, value) then ContainsDigits
    else if HasSpecial(u, value) then ContainsSpecialCharacters
    else NameValidationError.Valid
  }

  /** Reference definition of a valid name: 2 to 50 characters, each a
      letter or whitespace (such characters are never decimal digits). */
  lemma NameValidIff(u: UnicodeTables, value: string)
    requires Consistent(u)
    ensures ValidateName(u, value).Valid? <==>
      2 <= |value| <= 50
      && forall i :: 0 <= i < |value| ==> u.isLetter(value[i]) || u.isWhitespace(value[i])
  {
  }

  lemma NameExampleTooShort(u: UnicodeTables)
    ensures ValidateName(u, "A") == TooShort
  {
  }

  lemma NameExampleValid(u: UnicodeTables)
    requires Consistent(u)
    ensures ValidateName(u, "Ann").Valid?
  {
  }

  lemma NameExampleDigit(u: UnicodeTables)
    requires Consistent(u)
    ensures ValidateName(u, "Ann2") == ContainsDigits
  {
    var d := "Ann2";
    assert u.isDecimalDigit(d[3]);
  }

  lemma NameExampleSpecial(u: UnicodeTables)
    requires Consistent(u)
    ensures ValidateName(u, "Ann!") == ContainsSpecialCharacters
  {
    var p := "Ann!";
    assert p[3] in PasswordPunctuation;
    assert !u.isLetter(p[3]) && !u.isWhitespace(p[3]);
    assert forall i :: 0 <= i < 3 ==> u.isLetter(p[i]) && !u.isDecimalDigit(p[i]);
  }
}
