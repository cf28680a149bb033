/**
  The contact form's e-mail check. The site accepts an address when the whole
  string matches the anchored pattern `^[^\s@]+@[^\s@]+\.[^\s@]+$`.

  `MatchesPattern` reads that pattern as a language (the meaning of the
  regular expression), `IsValidEmail` is an executable characterisation of it,
  and `IsValidEmailIffPattern` proves the two agree on every string.
*/
module Email {

  /** The characters of JavaScript's `\s` class: the WhiteSpace code points
      (tab, vertical tab, form feed, space, no-break space, byte order mark and
      the other space separators) and the LineTerminator code points. */
  predicate IsWhitespace(c: char) {
    || c == '\t' || c == '\n' || c == '\U{000B}' || c == '\U{000C}' || c == '\r'
    || c == ' ' || c == '\U{00A0}' || c == '\U{1680}'
    || ('\U{2000}' <= c <= '\U{200A}')
    || c == '\U{2028}' || c == '\U{2029}' || c == '\U{202F}' || c == '\U{205F}'
    || c == '\U{3000}' || c == '\U{FEFF}'
  }

  /** A character of the class `[^\s@]`. */
  predicate IsAddressChar(c: char) {
    !IsWhitespace(c) && c != '@'
  }

  /** Every character of `s` is in `[^\s@]`. */
  predicate AllAddressChars(s: string) {
    forall k | 0 <= k < |s| :: IsAddressChar(s[k])
  }

  predicate NoWhitespace(s: string) {
    forall k | 0 <= k < |s| :: !IsWhitespace(s[k])
  }

  /** The anchored pattern as a language: `s` is a non-empty run of address
      characters, an `@`, a non-empty run, a `.`, and a non-empty run, with
      nothing before or after. `at` and `dot` are the positions of the two
      literal characters. */
  ghost predicate MatchesPattern(s: string) {
    exists at, dot | 0 < at && at + 1 < dot && dot + 1 < |s| ::
      && s[at] == '@' && s[dot] == '.'
      && AllAddressChars(s[..at])
      && AllAddressChars(s[at + 1..dot])
      && AllAddressChars(s[dot + 1..])
  }

  /** Index of the first occurrence of `c` in `s`, or `|s|` when there is none. */
  function IndexOf(s: string, c: char): (r: nat)
    ensures r <= |s|
    ensures r < |s| ==> s[r] == c
    ensures forall k | 0 <= k < r :: s[k] != c
  {
    if s == [] then 0
    else if s[0] == c then 0
    else 1 + IndexOf(s[1..], c)
  }

  /** The domain part contains a `.` that is neither its first nor its last character. */
  predicate HasInnerDot(domain: string) {
    exists k | 0 < k < |domain| - 1 :: domain[k] == '.'
  }

  /** The address check: no whitespace, exactly one `@`, a non-empty local part,
      and a domain part that splits at some `.` into two non-empty pieces. */
  predicate IsValidEmail(email: string) {
    && NoWhitespace(email)
    && multiset(email)['@'] == 1
    && var at := IndexOf(email, '@');
       0 < at < |email| && HasInnerDot(email[at + 1..])
  }

  /** Two distinct positions holding `c` give `c` a count of at least two. */
  lemma TwoOccurrences(s: string, c: char, i: int, j: int)
    requires 0 <= i < j < |s|
    requires s[i] == c && s[j] == c
    ensures multiset(s)[c] >= 2
  {
    assert s == s[..j] + s[j..];
    assert s[..j][i] == c;
    assert s[j..][0] == c;
    assert multiset(s) == multiset(s[..j]) + multiset(s[j..]);
  }

  /** A single position holding `c`, with no other occurrence, gives a count of one. */
  lemma SingleOccurrence(s: string, c: char, i: int)
    requires 0 <= i < |s| && s[i] == c
    requires forall k | 0 <= k < |s| && k != i :: s[k] != c
    ensures multiset(s)[c] == 1
  {
    assert s == s[..i] + [s[i]] + s[i + 1..];
    assert c !in s[..i];
    assert c !in s[i + 1..];
    assert multiset(s) == multiset(s[..i]) + multiset([s[i]]) + multiset(s[i + 1..]);
  }

  lemma ValidEmailMatches(s: string)
    requires IsValidEmail(s)
    ensures MatchesPattern(s)
  {
    var at := IndexOf(s, '@');
    var domain := s[at + 1..];
    var k :| 0 < k < |domain| - 1 && domain[k] == '.';
    var dot := at + 1 + k;
    assert s[dot] == '.';
    forall j | 0 <= j < |s| && j != at
      ensures s[j] != '@'
    {
      if j > at && s[j] == '@' {
        TwoOccurrences(s, '@', at, j);
      }
    }
    assert AllAddressChars(s[..at]);
    assert AllAddressChars(s[at + 1..dot]);
    assert AllAddressChars(s[dot + 1..]);
  }

  lemma PatternMatchIsValid(s: string)
    requires MatchesPattern(s)
    ensures IsValidEmail(s)
  {
    var at, dot :| 0 < at && at + 1 < dot && dot + 1 < |s|
      && s[at] == '@' && s[dot] == '.'
      && AllAddressChars(s[..at])
      && AllAddressChars(s[at + 1..dot])
      && AllAddressChars(s[dot + 1..]);
    forall j | 0 <= j < |s| && j != at
      ensures IsAddressChar(s[j]) || j == dot
    {
      if j < at {
        assert s[..at][j] == s[j];
      } else if at < j < dot {
        assert s[at + 1..dot][j - at - 1] == s[j];
      } else if dot < j {
        assert s[dot + 1..][j - dot - 1] == s[j];
      }
    }
    assert NoWhitespace(s);
    SingleOccurrence(s, '@', at);
    assert IndexOf(s, '@') == at;
    var domain := s[at + 1..];
    assert domain[dot - at - 1] == '.';
  }

  /** The executable check accepts exactly the strings the pattern matches. */
  lemma IsValidEmailIffPattern(s: string)
    ensures IsValidEmail(s) <==> MatchesPattern(s)
  {
    if IsValidEmail(s) {
      ValidEmailMatches(s);
    }
    if MatchesPattern(s) {
      PatternMatchIsValid(s);
    }
  }

  /** A string with a whitespace character anywhere is rejected. */
  lemma WhitespaceRejected(s: string, k: int)
    requires 0 <= k < |s| && IsWhitespace(s[k])
    ensures !MatchesPattern(s)
  {
    IsValidEmailIffPattern(s);
  }

  /** A string without an `@` is rejected. */
  lemma MissingAtRejected(s: string)
    requires '@' !in s
    ensures !MatchesPattern(s)
  {
    IsValidEmailIffPattern(s);
    assert multiset(s)['@'] == 0;
  }

  /** A string with two or more `@` characters is rejected. */
  lemma SeveralAtsRejected(s: string, i: int, j: int)
    requires 0 <= i < j < |s| && s[i] == '@' && s[j] == '@'
    ensures !MatchesPattern(s)
  {
    TwoOccurrences(s, '@', i, j);
    IsValidEmailIffPattern(s);
  }

  /** An empty local part (the string starts with `@`) is rejected. */
  lemma EmptyLocalPartRejected(s: string)
    requires |s| > 0 && s[0] == '@'
    ensures !MatchesPattern(s)
  {
    IsValidEmailIffPattern(s);
  }

  lemma ExampleAccepted()
    ensures MatchesPattern("a@b.com")
  {
    var s := "a@b.com";
    assert s[1] == '@' && s[3] == '.';
    assert AllAddressChars(s[..1]);
    assert AllAddressChars(s[2..3]);
    assert AllAddressChars(s[4..]);
  }

  lemma ExampleRejected()
    ensures !MatchesPattern("not-an-email")
  {
    var s := "not-an-email";
    forall k | 0 <= k < |s|
      ensures s[k] != '@'
    {
    }
    MissingAtRejected(s);
  }
}
