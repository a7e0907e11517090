# AuthApp field validation, modelled in Dafny

This project models the field-validation rules of the AuthApp registration
screen and the per-field state of its registration view model. It proves
properties of both.

- `ValidationService` has three validators. Each one runs an ordered list of
  checks, and the first check that fails decides the outcome. Each outcome
  enum has an error message that is empty only for `valid`.
  - The email validator checks for an `@`, then the pattern `.*@.+\..+`,
    then the format pattern `[A-Z0-9a-z._%+-]+@[A-Za-z0-9.-]+\.[A-Za-z]{2,64}`.
  - The password validator checks that the length is 6 to 20, that there is
    a decimal digit, that there is no whitespace, and that every character
    is in an explicit allow-list.
  - The name validator checks that the length is 2 to 50, that there is no
    decimal digit, and that every character is a letter or whitespace.
- `RegistrationViewModel` holds four text fields. Each write to a field
  re-runs one validator and publishes its outcome. A write to the
  confirmation field publishes the outcome for the *stored* password, then
  whether that password equals the new confirmation.

Files:

- `CharacterSets.dfy` (module `CharacterSets`) has the character classes.
  - Foundation's `decimalDigits`, `letters` and `whitespaces` are Unicode
    categories, and Swift's `String` equality treats canonically
    equivalent strings as equal. The model takes all four as a value
    `UnicodeTables` (three character predicates and a string equality
    relation): the platform's tables.
  - `Consistent(u)` lists the only facts about those tables that the
    proofs use:
    - ASCII digits are decimal digits;
    - ASCII letters and basic Cyrillic letters are letters;
    - space and tab are whitespace;
    - the allow-list punctuation is in none of the three sets;
    - the three sets are pairwise disjoint;
    - string equality is reflexive, and on ASCII strings it is equality of
      the character sequences.
  - `SampleTablesConsistent` shows that some tables meet these facts.
- `EmailPatterns.dfy` (module `EmailPatterns`) has the two email regular
  expressions.
  - Each one is an existential definition of a whole-string match.
  - ICU's `.` matches no line terminator (`\n`, `\v`, `\f`, `\r`, U+0085,
    U+2028, U+2029).
  - Each definition also has a deterministic recogniser that splits at the
    first `@` and the last `.`. The recogniser is proved to accept exactly
    the matching strings.
  - The split of a valid address is forced. No class of the format pattern
    contains `@`, so the `@` is unique. The last label excludes `.`, so the
    tld is exactly the text after the last `.`.
- `ValidationService.dfy` (module `ValidationService`) has the outcome
  enums, the three validators, characterisations of each outcome, reference
  definitions of `valid`, and the examples that the validators' behaviour
  promises.
- `RegistrationViewModel.dfy` (module `Registration`) has the view model.
  - It is a class with the four fields and one setter method per
    subscription.
  - Each setter returns what it publishes, in order, as a sequence of
    `Emission` values.

## Model

| member | source | states |
|---|---|---|
| `CharacterSets.AllowListIsPrintableAscii` | AuthApp/Services/ValidationService.swift:44 | a character is in the password allow-list exactly when it is printable ASCII other than space (U+0021 to U+007E) |
| `CharacterSets.PunctuationIsAsciiSymbol` | AuthApp/Services/ValidationService.swift:44 | every punctuation character of the allow-list is printable ASCII and is neither an ASCII letter nor an ASCII digit |
| `EmailPatterns.HasDomainPartIff` | AuthApp/Services/ValidationService.swift:17-18 | the first-`@`/last-`.` recogniser accepts exactly the strings that `.*@.+\..+` matches as a whole: no line terminator, an `@` at i and a `.` at j with i+1 < j < length - 1 |
| `EmailPatterns.FormatRecognisedIff` | AuthApp/Services/ValidationService.swift:22-23 | the deterministic recogniser accepts exactly the strings that equal local + "@" + domain + "." + tld with every part in its class |
| `EmailPatterns.EmailSplitForced` | AuthApp/Services/ValidationService.swift:22 | in a matching string the `@` after the local part is the only `@` and the first one, and the tld starts right after the last `.` |
| `EmailPatterns.EmailSplitUnique` | AuthApp/Services/ValidationService.swift:22 | a matching string has exactly one split into local part, domain and tld |
| `EmailPatterns.EmailPatternImpliesDomainPattern` | AuthApp/Services/ValidationService.swift:12-23 | a string that matches the format pattern contains `@` and matches `.*@.+\..+`, so the earlier checks cannot fail for it |
| `EmailPatterns.NonPrintableBreaksPattern` | AuthApp/Services/ValidationService.swift:22 | a string holding a space, a line terminator or any non-ASCII character never matches the format pattern |
| `ValidationService.ValidateEmail` | AuthApp/Services/ValidationService.swift:11-28 | `MissingAtSymbol` iff there is no `@`; `MissingDomain` iff there is an `@` but `.*@.+\..+` does not match; `InvalidFormat` iff that matches but the format pattern does not; `Valid` iff the format pattern matches |
| `ValidationService.EmailPastDomainCheck` | AuthApp/Services/ValidationService.swift:17-20 | `InvalidFormat` or `Valid` implies no line terminator, an `@` at some i and a `.` at some j with i+1 < j < length - 1 |
| `ValidationService.ValidEmailShape` | AuthApp/Services/ValidationService.swift:22-27 | a `Valid` email splits into local, domain and tld, holds exactly one `@`, and the text after its last `.` is 2 to 64 ASCII letters |
| `ValidationService.EmailFromParts` | AuthApp/Services/ValidationService.swift:22-27 | local + "@" + domain + "." + tld is `Valid` whenever each part is in its class (the converse of `ValidEmailShape`) |
| `ValidationService.EmailEmptyIsMissingAt` | AuthApp/Services/ValidationService.swift:12-15 | the empty string gives `MissingAtSymbol` |
| `ValidationService.EmailExampleValid` | AuthApp/Services/ValidationService.swift:22-27 | "user@example.com" is `Valid` |
| `ValidationService.EmailExampleMissingDomain` | AuthApp/Services/ValidationService.swift:17-20 | "user@example" gives `MissingDomain` |
| `ValidationService.EmailExampleInvalidFormat` | AuthApp/Services/ValidationService.swift:17-25 | "user@exa mple.com" passes the domain check and gives `InvalidFormat` |
| `ValidationService.EmailValidationError.ErrorMessage` | AuthApp/Services/ValidationService.swift:85-96 | the message is empty exactly for `valid` |
| `ValidationService.ValidatePassword` | AuthApp/Services/ValidationService.swift:30-50 | `LenthIncorrect` iff the length is below 6 or above 20, whatever the content; `MissingDigit` implies the length is in range; `ContainsWhitespace` also implies a digit; `ContainsNonLatinCharacters` also implies no whitespace and a character outside the allow-list |
| `ValidationService.PasswordValidIff` | AuthApp/Services/ValidationService.swift:30-49 | given consistent tables, `Valid` iff the length is 6 to 20, every character is in the allow-list, and some character is an ASCII `0`-`9` |
| `ValidationService.AllowedDigitIsAscii` | AuthApp/Services/ValidationService.swift:35-47 | the only decimal digits in the allow-list are `0`-`9` |
| `ValidationService.AllowedIsNotWhitespace` | AuthApp/Services/ValidationService.swift:40-47 | no allow-list character is whitespace |
| `ValidationService.PasswordValidPassedEarlierChecks` | AuthApp/Services/ValidationService.swift:30-49 | a `Valid` password passed every earlier check: length in range, a decimal digit, no whitespace, all characters allowed |
| `ValidationService.PasswordExampleTooShort` | AuthApp/Services/ValidationService.swift:31-33 | "abc" gives `LenthIncorrect`, not `MissingDigit` |
| `ValidationService.PasswordExampleMissingDigit` | AuthApp/Services/ValidationService.swift:35-38 | "abcdef" gives `MissingDigit` |
| `ValidationService.PasswordExampleWhitespace` | AuthApp/Services/ValidationService.swift:40-42 | "abc 123" gives `ContainsWhitespace` |
| `ValidationService.PasswordExampleCyrillic` | AuthApp/Services/ValidationService.swift:44-47 | a Cyrillic word followed by `1` gives `ContainsNonLatinCharacters` |
| `ValidationService.PasswordExampleValid` | AuthApp/Services/ValidationService.swift:30-49 | "abc123" is `Valid` |
| `ValidationService.PasswordValidationError.ErrorMessage` | AuthApp/Services/ValidationService.swift:106-119 | the message is empty exactly for `valid` |
| `ValidationService.ValidateName` | AuthApp/Services/ValidationService.swift:52-72 | `TooShort` iff the length is below 2; `TooLong` iff it is above 50; `ContainsDigits` implies the length is 2 to 50 and a decimal digit is present; `ContainsSpecialCharacters` also implies no digit and some character that is neither letter nor whitespace |
| `ValidationService.NameValidIff` | AuthApp/Services/ValidationService.swift:52-71 | given consistent tables, `Valid` iff the length is 2 to 50 and every character is a letter or whitespace |
| `ValidationService.NameExampleTooShort` | AuthApp/Services/ValidationService.swift:53-55 | "A" gives `TooShort` |
| `ValidationService.NameExampleValid` | AuthApp/Services/ValidationService.swift:52-71 | "Ann" is `Valid` |
| `ValidationService.NameExampleDigit` | AuthApp/Services/ValidationService.swift:61-64 | "Ann2" gives `ContainsDigits` |
| `ValidationService.NameExampleSpecial` | AuthApp/Services/ValidationService.swift:66-69 | "Ann!" gives `ContainsSpecialCharacters` |
| `ValidationService.NameValidationError.ErrorMessage` | AuthApp/Services/ValidationService.swift:129-142 | the message is empty exactly for `valid` |
| `Registration.RegistrationViewModel.constructor` | AuthApp/Modules/Authorization/Registration/RegistrationViewModel.swift:16-19 | all four fields start as the empty string |
| `Registration.RegistrationViewModel.SetName` | AuthApp/Modules/Authorization/Registration/RegistrationViewModel.swift:53-58 | stores v, publishes exactly the outcome `ValidationService.validateName` gives for v (through the private delegate at lines 87-89), and changes no other field |
| `Registration.RegistrationViewModel.SetEmail` | AuthApp/Modules/Authorization/Registration/RegistrationViewModel.swift:61-66 | stores v, publishes exactly the outcome `ValidationService.validateEmail` gives for v (through the private delegate at lines 91-93), and changes no other field |
| `Registration.RegistrationViewModel.SetPassword` | AuthApp/Modules/Authorization/Registration/RegistrationViewModel.swift:69-74 | stores v and publishes exactly the outcome `ValidationService.validatePassword` gives for v (through the private delegate at lines 95-97); it publishes no confirmation result |
| `Registration.RegistrationViewModel.SetConfirmPassword` | AuthApp/Modules/Authorization/Registration/RegistrationViewModel.swift:77-83 | stores v and publishes, in order, the `validatePassword` outcome for the stored password (through the delegate at lines 95-97) and whether that password equals v under Swift string equality (`tables.stringsEqual`, which also holds between canonically equivalent strings) |
| `Registration.StaleConfirmation` | AuthApp/Modules/Authorization/Registration/RegistrationViewModel.swift:69-83 | after a matching confirmation, a password change publishes no new comparison, so the last reported `true` stands while the fields differ; "Secret2" does not confirm "secret2" |

Repeated calls of a validator give the same outcome, with no hidden state.
This holds by construction, because every validator is a Dafny function.

## Left out

- Strings are sequences of Unicode scalar values, and each scalar stands for
  one user-perceived character. Swift's `count` counts grapheme clusters,
  so a character built from several scalars (a letter with a combining
  mark, or an emoji sequence) has a larger length here than on the device.
- The Unicode category tables behind `decimalDigits`, `letters` and
  `whitespaces` are not modelled, nor is the canonical equivalence behind
  Swift's `String ==`. They are a parameter, and `Consistent` constrains
  them only as far as the proofs need.
- The ICU regular-expression engine is replaced by the definitions in
  `EmailPatterns`. The `[c]` flag of the `@` containment test has no effect
  on `@` and is not modelled.
- The localized message texts are replaced by short English texts. Only
  empty versus non-empty is modelled.
- `RegistrationViewModel.registration` is left out. It is a call into the
  Firebase `Auth.createUser` network API.
- The Combine subjects, `@Published` publishers and subscriptions are
  replaced by setter return values.
  - Not modelled: the emissions that `setupBindings` produces for the
    initial empty values, before any view subscribes.
  - Not modelled: a `@Published` publisher fires before the stored value
    changes, so a subscriber that reads the field while handling an
    emission still sees the old value. In the model the setter's emissions
    and its stored value are both visible only after it returns.
- The view controller, the text-field view, the routers, the configurators
  and the UIKit extensions are screen plumbing, and are left out.
- `LoginViewModel.validateEmail` does not compile (it returns a value from a
  function declared without a return type and uses an undefined `email`),
  so it is not modelled.
