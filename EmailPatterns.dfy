/** The two regular expressions of the email validator.

    `NSPredicate` with `MATCHES` is an anchored ICU match against the whole
    string, and ICU's `.` matches any character except a line terminator.
    Each pattern is stated here as an existential predicate (the pattern's
    meaning), and a deterministic recogniser that locates the first `@` and
    the last `.` is proved to accept exactly the same strings. */
module EmailPatterns {
  import opened CharacterSets

  datatype Option<T> = None | Some(value: T)

  /** The index of the first occurrence of `c` in `s`. */
  function IndexOf(s: string, c: char): (r: Option<nat>)
    ensures r.None? <==> c !in s
    ensures r.Some? ==> r.value < |s| && s[r.value] == c && c !in s[..r.value]
  {
    if |s| == 0 then None
    else if s[0] == c then Some(0)
    else
      match IndexOf(s[1..], c)
      case None => None
      case Some(i) =>
        assert s[..i + 1] == [s[0]] + s[1..][..i];
        Some(i + 1)
  }

  /** The index of the last occurrence of `c` in `s`. */
  function LastIndexOf(s: string, c: char): (r: Option<nat>)
    ensures r.None? <==> c !in s
    ensures r.Some? ==> r.value < |s| && s[r.value] == c && c !in s[r.value + 1..]
  {
    if |s| == 0 then None
    else if s[|s| - 1] == c then Some(|s| - 1)
    else
      var r := LastIndexOf(s[..|s| - 1], c);
      assert s == s[..|s| - 1] + [s[|s| - 1]];
      assert r.Some? ==> s[r.value + 1..] == s[..|s| - 1][r.value + 1..] + [s[|s| - 1]];
      r
  }

  /** No character of `s` is one that ICU's `.` refuses. */
  predicate NoLineTerminator(s: string) {
    forall i :: 0 <= i < |s| ==> !IsLineTerminator(s[i])
  }

  // ---------------------------------------------------------------------
  // Check 2: `.*@.+\..+`

  /** `s[i]` is the `@` and `s[j]` the `.` of a match of `.*@.+\..+`: at
      least one character lies between them and at least one follows the
      dot. */
  ghost predicate DomainPartAt(s: string, i: int, j: int) {
    0 <= i && i + 1 < j < |s| - 1 && s[i] == '@' && s[j] == '.'
  }

  /** The whole string matches `.*@.+\..+`. */
  ghost predicate MatchesDomainPattern(s: string) {
    NoLineTerminator(s) && exists i, j :: DomainPartAt(s, i, j)
  }

  /** Recogniser for `.*@.+\..+`: the first `@` must come at least two
      places before the last `.` that is not the final character. */
  predicate HasDomainPart(s: string) {
    NoLineTerminator(s) && |s| > 0
    && match (IndexOf(s, '@'), LastIndexOf(s[..|s| - 1], '.'))
       case (Some(i), Some(j)) => i + 1 < j
       case _ => false
  }

  lemma {:induction false} HasDomainPartIff(s: string)
    ensures HasDomainPart(s) <==> MatchesDomainPattern(s)
  {
    if MatchesDomainPattern(s) {
      var i, j :| DomainPartAt(s, i, j);
      assert s[..|s| - 1][j] == '.';
      var first, last := IndexOf(s, '@'), LastIndexOf(s[..|s| - 1], '.');
      assert first.Some? && first.value <= i;
      assert last.Some? && last.value >= j;
    }
    if HasDomainPart(s) {
      var i, j := IndexOf(s, '@').value, LastIndexOf(s[..|s| - 1], '.').value;
      assert DomainPartAt(s, i, j);
    }
  }

  // ---------------------------------------------------------------------
  // Check 3: `[A-Z0-9a-z._%+-]+@[A-Za-z0-9.-]+\.[A-Za-z]{2,64}`

  predicate IsLocalChar(c: char) {
    IsAsciiLetter(c) || IsAsciiDigit(c) || c == '.' || c == '_' || c == '%' || c == '+' || c == '-'
  }

  predicate IsDomainChar(c: char) {
    IsAsciiLetter(c) || IsAsciiDigit(c) || c == '.' || c == '-'
  }

  /** `[A-Z0-9a-z._%+-]+` */
  predicate IsLocalPart(t: string) {
    |t| >= 1 && forall i :: 0 <= i < |t| ==> IsLocalChar(t[i])
  }

  /** `[A-Za-z0-9.-]+` */
  predicate IsDomainPart(t: string) {
    |t| >= 1 && forall i :: 0 <= i < |t| ==> IsDomainChar(t[i])
  }

  /** `[A-Za-z]{2,64}` */
  predicate IsTld(t: string) {
    2 <= |t| <= 64 && forall i :: 0 <= i < |t| ==> IsAsciiLetter(t[i])
  }

  /** `s` is `local @ domain . tld` with each part in its class. */
  ghost predicate IsEmailSplit(s: string, local: string, domain: string, tld: string) {
    s == local + "@" + domain + "." + tld
    && IsLocalPart(local) && IsDomainPart(domain) && IsTld(tld)
  }

  /** The whole string matches the email format pattern. */
  ghost predicate MatchesEmailPattern(s: string) {
    exists local, domain, tld :: IsEmailSplit(s, local, domain, tld)
  }

  /** Recogniser for the email format pattern: split at the first `@` and
      at the last `.`, then check the three parts. */
  predicate FormatRecognised(s: string) {
    match (IndexOf(s, '@'), LastIndexOf(s, '.'))
    case (Some(a), Some(d)) =>
      a < d && IsLocalPart(s[..a]) && IsDomainPart(s[a + 1..d]) && IsTld(s[d + 1..])
    case _ => false
  }

  /** Where the separators and the parts sit inside `local @ domain . tld`. */
  lemma SplitLayout(s: string, local: string, domain: string, tld: string)
    requires s == local + "@" + domain + "." + tld
    ensures |s| == |local| + |domain| + |tld| + 2
    ensures s[|local|] == '@' && s[|local| + 1 + |domain|] == '.'
    ensures s[..|local|] == local
    ensures s[|local| + 1..|local| + 1 + |domain|] == domain
    ensures s[|local| + 2 + |domain|..] == tld
  {
  }

  /** The split of a matching string is forced: none of the three classes
      holds `@`, so the `@` is unique and is the first one, and the tld
      class excludes `.`, so the tld starts after the last `.`. */
  lemma {:induction false} EmailSplitForced(s: string, local: string, domain: string, tld: string)
    requires IsEmailSplit(s, local, domain, tld)
    ensures forall i :: 0 <= i < |s| && s[i] == '@' ==> i == |local|
    ensures IndexOf(s, '@') == Some(|local|)
    ensures LastIndexOf(s, '.') == Some(|s| - |tld| - 1)
  {
    SeparatorPositions(s, local, domain, tld);
    FirstAndLast(s, |local|, |s| - |tld| - 1);
  }

  /** Where `@` and `.` can occur in `local @ domain . tld`. */
  lemma SeparatorPositions(s: string, local: string, domain: string, tld: string)
    requires IsEmailSplit(s, local, domain, tld)
    ensures |s| == |local| + |domain| + |tld| + 2
    ensures s[|local|] == '@' && s[|s| - |tld| - 1] == '.'
    ensures forall i :: 0 <= i < |s| && s[i] == '@' ==> i == |local|
    ensures forall i :: |s| - |tld| <= i < |s| ==> s[i] != '.'
  {
    SplitLayout(s, local, domain, tld);
    var a, d := |local|, |local| + 1 + |domain|;
    forall i | 0 <= i < |s| && i != a
      ensures s[i] != '@'
    {
      if i < a {
        assert s[i] == local[i];
      } else if i < d {
        assert s[i] == domain[i - a - 1];
      } else if i > d {
        assert s[i] == tld[i - d - 1];
      }
    }
    forall i | d < i < |s|
      ensures s[i] != '.'
    {
      assert s[i] == tld[i - d - 1];
    }
  }

  /** If `s[a]` is the only `@` and `s[d]` a `.` with none after it, the
      searches find exactly those two. */
  lemma FirstAndLast(s: string, a: nat, d: nat)
    requires a < |s| && d < |s| && s[a] == '@' && s[d] == '.'
    requires forall i :: 0 <= i < |s| && s[i] == '@' ==> i == a
    requires forall i :: d < i < |s| ==> s[i] != '.'
    ensures IndexOf(s, '@') == Some(a)
    ensures LastIndexOf(s, '.') == Some(d)
  {
    var last := LastIndexOf(s, '.').value;
    assert forall k :: last + 1 <= k < |s| ==> s[k] == s[last + 1..][k - last - 1];
  }

  /** Two splits of the same string are the same split. */
  lemma EmailSplitUnique(s: string, l1: string, d1: string, t1: string, l2: string, d2: string, t2: string)
    requires IsEmailSplit(s, l1, d1, t1) && IsEmailSplit(s, l2, d2, t2)
    ensures l1 == l2 && d1 == d2 && t1 == t2
  {
    EmailSplitForced(s, l1, d1, t1);
    EmailSplitForced(s, l2, d2, t2);
    SplitLayout(s, l1, d1, t1);
    SplitLayout(s, l2, d2, t2);
  }

  /** The recogniser accepts exactly the strings the pattern matches. */
  lemma FormatRecognisedIff(s: string)
    ensures FormatRecognised(s) <==> MatchesEmailPattern(s)
  {
    if FormatRecognised(s) {
      RecognisedIsSplit(s);
    }
    if MatchesEmailPattern(s) {
      var local, domain, tld :| IsEmailSplit(s, local, domain, tld);
      SplitIsRecognised(s, local, domain, tld);
    }
  }

  lemma RecognisedIsSplit(s: string)
    requires FormatRecognised(s)
    ensures MatchesEmailPattern(s)
  {
    var a, d := IndexOf(s, '@').value, LastIndexOf(s, '.').value;
    var local, domain, tld := s[..a], s[a + 1..d], s[d + 1..];
    assert s == local + "@" + domain + "." + tld;
    assert IsEmailSplit(s, local, domain, tld);
  }

  lemma SplitIsRecognised(s: string, local: string, domain: string, tld: string)
    requires IsEmailSplit(s, local, domain, tld)
    ensures FormatRecognised(s)
  {
    EmailSplitForced(s, local, domain, tld);
    SplitLayout(s, local, domain, tld);
  }

  /** A string matching the format pattern also passes the two earlier
      email checks. */
  lemma EmailPatternImpliesDomainPattern(s: string)
    ensures MatchesEmailPattern(s) ==> '@' in s && MatchesDomainPattern(s)
  {
    if MatchesEmailPattern(s) {
      EmailPatternPassesDomainPattern(s);
    }
  }

  lemma EmailPatternPassesDomainPattern(s: string)
    requires MatchesEmailPattern(s)
    ensures '@' in s && MatchesDomainPattern(s)
  {
    var local, domain, tld :| IsEmailSplit(s, local, domain, tld);
    SplitLayout(s, local, domain, tld);
    var i, j := |local|, |local| + 1 + |domain|;
    assert DomainPartAt(s, i, j);
    assert NoLineTerminator(s);
  }

  /** A string holding a space or any other character outside printable
      ASCII is never a valid email. */
  lemma NonPrintableBreaksPattern(s: string, i: int)
    requires 0 <= i < |s| && !('!' <= s[i] <= '~')
    ensures !MatchesEmailPattern(s)
  {
    if MatchesEmailPattern(s) {
      var local, domain, tld :| IsEmailSplit(s, local, domain, tld);
      SplitLayout(s, local, domain, tld);
    }
  }
}
