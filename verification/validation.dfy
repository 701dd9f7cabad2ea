/**
  `isValidEmail` from src/App.jsx. The source tests the regular expression
  `^[^\s@]+@[^\s@]+\.[^\s@]+$`; the model computes the answer by locating the
  `@` and is proved equal to the pattern read as a shape of the string.
*/
module Validation {
  import opened Wrappers
  import opened Strings

  /** A character the class `[^\s@]` admits. */
  predicate PartChar(c: char) {
    !IsWhitespace(c) && c != '@'
  }

  predicate NoSpaceOrAt(s: string) {
    forall i :: 0 <= i < |s| ==> PartChar(s[i])
  }

  /** A run matched by `[^\s@]+`. */
  predicate EmailPart(s: string) {
    |s| > 0 && NoSpaceOrAt(s)
  }

  /** `s` splits at `at` and `dot` as the pattern does: one or more part characters,
      `@`, one or more, `.`, one or more. */
  predicate SplitsAt(s: string, at: nat, dot: nat) {
    && at < dot < |s|
    && s[at] == '@' && s[dot] == '.'
    && EmailPart(s[..at]) && EmailPart(s[at + 1..dot]) && EmailPart(s[dot + 1..])
  }

  /** The pattern `^[^\s@]+@[^\s@]+\.[^\s@]+$` as a shape of the string. */
  ghost predicate MatchesEmailPattern(s: string) {
    exists at: nat, dot: nat :: SplitsAt(s, at, dot)
  }

  /** The first position of `c` in `s`, if any. */
  function IndexOf(s: string, c: char): (r: Option<nat>)
    ensures r.None? <==> c !in s
    ensures r.Some? ==> r.value < |s| && s[r.value] == c && c !in s[..r.value]
  {
    if s == [] then None
    else if s[0] == c then Some(0)
    else
      var rest := IndexOf(s[1..], c);
      if rest.Some? then
        assert s[..rest.value + 1] == [s[0]] + s[1..][..rest.value];
        Some(rest.value + 1)
      else None
  }

  /** `isValidEmail(email)`. An accepted address holds an `@`, no white space anywhere, and at
      least five characters (`EmailCharacterisation` gives the full pattern). */
  predicate IsValidEmail(s: string)
    ensures IsValidEmail(s) ==> '@' in s && |s| >= 5
    ensures IsValidEmail(s) ==> forall i :: 0 <= i < |s| ==> !IsWhitespace(s[i])
  {
    match IndexOf(s, '@')
    case None => false
    case Some(at) =>
      var domain := s[at + 1..];
      && EmailPart(s[..at]) && NoSpaceOrAt(domain)
      && |domain| >= 3 && '.' in domain[1..|domain| - 1]
  }

  /** The computed check accepts exactly the strings of the pattern's shape. */
  lemma EmailCharacterisation(s: string)
    ensures IsValidEmail(s) <==> MatchesEmailPattern(s)
  {
    if IsValidEmail(s) {
      EmailSound(s);
    }
    if MatchesEmailPattern(s) {
      EmailComplete(s);
    }
  }

  lemma EmailSound(s: string)
    requires IsValidEmail(s)
    ensures MatchesEmailPattern(s)
  {
    assert IndexOf(s, '@').Some?;
    var at := IndexOf(s, '@').value;
    var domain := s[at + 1..];
    assert EmailPart(s[..at]) && NoSpaceOrAt(domain) && |domain| >= 3;
    var inner := domain[1..|domain| - 1];
    assert '.' in inner;
    var k :| 0 <= k < |inner| && inner[k] == '.';
    assert domain[k + 1] == '.';
    var dot := at + 2 + k;
    assert dot < |s| && s[dot] == '.';
    var host := s[at + 1..dot];
    var tld := s[dot + 1..];
    assert host == domain[..k + 1];
    assert tld == domain[k + 2..];
    assert EmailPart(host) by {
      forall i | 0 <= i < |host| ensures PartChar(host[i]) {
        assert host[i] == domain[i];
      }
    }
    assert EmailPart(tld) by {
      forall i | 0 <= i < |tld| ensures PartChar(tld[i]) {
        assert tld[i] == domain[k + 2 + i];
      }
    }
    assert SplitsAt(s, at, dot);
  }

  lemma EmailComplete(s: string)
    requires MatchesEmailPattern(s)
    ensures IsValidEmail(s)
  {
    var at: nat, dot: nat :| SplitsAt(s, at, dot);
    var domain := s[at + 1..];
    var k := dot - at - 1;
    assert domain[..k] == s[at + 1..dot];
    assert domain[k + 1..] == s[dot + 1..];
    assert domain[k] == s[dot];
    FirstAt(s, at);
    DomainShape(domain, k);
  }

  /** A domain of two parts joined by a dot passes the domain half of the check. */
  lemma DomainShape(domain: string, k: nat)
    requires k < |domain| && domain[k] == '.'
    requires EmailPart(domain[..k]) && EmailPart(domain[k + 1..])
    ensures NoSpaceOrAt(domain) && |domain| >= 3 && '.' in domain[1..|domain| - 1]
  {
    forall i | 0 <= i < |domain| ensures PartChar(domain[i]) {
      if i < k {
        assert domain[i] == domain[..k][i];
      } else if i > k {
        assert domain[i] == domain[k + 1..][i - k - 1];
      }
    }
    assert domain[1..|domain| - 1][k - 1] == '.';
  }

  /** An `@` preceded only by part characters is the first `@`. */
  lemma FirstAt(s: string, at: nat)
    requires at < |s| && s[at] == '@' && NoSpaceOrAt(s[..at])
    ensures IndexOf(s, '@') == Some(at)
  {
    assert s[at] == '@';
  }
}
