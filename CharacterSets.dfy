/** Character classes used by the validators.

    Foundation's `CharacterSet.decimalDigits`, `.letters` and `.whitespaces`
    are Unicode general categories (Nd; L and M; Zs plus tab). Their tables
    belong to the platform, so the model receives them as a `UnicodeTables`
    value and states, in `Consistent`, only the facts about them that the
    lemmas need. The ASCII classes of the regular expressions and the
    password allow-list are concrete. */
module CharacterSets {

  /** The platform's Unicode tables: three character categories, and
      Swift's `String` equality, which holds between canonically equivalent
      strings (a precomposed letter and its decomposed form) and not only
      between identical sequences of scalars. */
  datatype UnicodeTables = UnicodeTables(
    isDecimalDigit: char -> bool,          // CharacterSet.decimalDigits
    isLetter: char -> bool,                // CharacterSet.letters
    isWhitespace: char -> bool,            // CharacterSet.whitespaces
    stringsEqual: (string, string) -> bool)  // String ==

  predicate IsAsciiDigit(c: char) { '0' <= c <= '9' }

  predicate IsAsciiLetter(c: char) { 'A' <= c <= 'Z' || 'a' <= c <= 'z' }

  /** Every character of `s` is ASCII (below U+0080). */
  predicate IsAsciiString(s: string) {
    forall i :: 0 <= i < |s| ==> s[i] < '\U{80}'
  }

  /** Basic Cyrillic capital and small letters, U+0410 to U+044F. */
  predicate IsBasicCyrillic(c: char) { '\U{0410}' <= c <= '\U{044F}' }

  /** The punctuation of the password allow-list (everything in it that is
      not an ASCII letter or digit). */
  const PasswordPunctuation: string := "!@#$%^&*()-_=+{}[]|\\;:'\",.<>?/`~"

  /** Membership in `CharacterSet(charactersIn:)` built from the password
      allow-list. */
  predicate InPasswordAllowList(c: char) {
    IsAsciiLetter(c) || IsAsciiDigit(c) || c in PasswordPunctuation
  }

  /** The characters ICU treats as line terminators; the regular-expression
      `.` matches none of them. */
  predicate IsLineTerminator(c: char) {
    c == '\n' || c == '\U{B}' || c == '\U{C}' || c == '\r'
    || c == '\U{85}' || c == '\U{2028}' || c == '\U{2029}'
  }

  /** What the model assumes of the platform tables: ASCII digits are
      decimal digits, ASCII letters are letters, space and tab are
      whitespace, basic Cyrillic letters are letters, the allow-list
      punctuation is in none of the three sets, the three sets are
      pairwise disjoint (Nd, L/M and Zs/tab are distinct categories), string
      equality is reflexive, and on ASCII strings (which hold no combining
      marks) it is equality of the character sequences. */
  ghost predicate Consistent(u: UnicodeTables) {
    (forall c :: IsAsciiDigit(c) ==> u.isDecimalDigit(c))
    && (forall c :: IsAsciiLetter(c) ==> u.isLetter(c))
    && (forall c :: IsBasicCyrillic(c) ==> u.isLetter(c))
    && u.isWhitespace(' ') && u.isWhitespace('\t')
    && (forall c :: c in PasswordPunctuation ==>
          !u.isDecimalDigit(c) && !u.isLetter(c) && !u.isWhitespace(c))
    && (forall c :: u.isDecimalDigit(c) ==> !u.isLetter(c) && !u.isWhitespace(c))
    && (forall c :: u.isLetter(c) ==> !u.isWhitespace(c))
    && (forall s :: u.stringsEqual(s, s))
    && (forall s, t :: IsAsciiString(s) && IsAsciiString(t) ==> (u.stringsEqual(s, t) <==> s == t))
  }

  /** Sample tables (ASCII and basic Cyrillic categories, scalar-wise string
      equality), used only to show that `Consistent` can be met. */
  function SampleTables(): UnicodeTables {
    UnicodeTables(
      c => IsAsciiDigit(c),
      c => IsAsciiLetter(c) || IsBasicCyrillic(c),
      c => c == ' ' || c == '\t',
      (s, t) => s == t)
  }

  /** Every allow-list punctuation character is printable ASCII and neither
      an ASCII letter nor an ASCII digit. */
  lemma PunctuationIsAsciiSymbol(c: char)
    requires c in PasswordPunctuation
    ensures '!' <= c <= '~' && !IsAsciiLetter(c) && !IsAsciiDigit(c)
  {
  }

  /** The allow-list is exactly printable ASCII without the space,
      U+0021 to U+007E. */
  lemma AllowListIsPrintableAscii(c: char)
    ensures InPasswordAllowList(c) <==> '!' <= c <= '~'
  {
  }

  /** Under consistent tables, string equality between two ASCII strings
      is equality of their characters. */
  lemma AsciiStringsEqual(u: UnicodeTables, s: string, t: string)
    requires Consistent(u) && IsAsciiString(s) && IsAsciiString(t)
    ensures u.stringsEqual(s, t) <==> s == t
  {
  }

  lemma SampleTablesConsistent()
    ensures Consistent(SampleTables())
  {
    var u := SampleTables();
    assert forall c :: IsAsciiDigit(c) ==> u.isDecimalDigit(c);
    assert forall c :: IsAsciiLetter(c) ==> u.isLetter(c);
    assert forall c :: IsBasicCyrillic(c) ==> u.isLetter(c);
    assert u.isWhitespace(' ') && u.isWhitespace('\t');
    forall c | c in PasswordPunctuation
      ensures !u.isDecimalDigit(c) && !u.isLetter(c) && !u.isWhitespace(c)
    {
      PunctuationIsAsciiSymbol(c);
    }
    assert forall c :: u.isDecimalDigit(c) ==> !u.isLetter(c) && !u.isWhitespace(c);
    assert forall c :: u.isLetter(c) ==> !u.isWhitespace(c);
    assert forall s :: u.stringsEqual(s, s);
    assert forall s, t :: u.stringsEqual(s, t) <==> s == t;
  }
}
