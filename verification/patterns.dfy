/**
 * The java.util.regex patterns of the validators, each written out as a
 * hand matcher. Every matcher is paired with a declarative reading of its
 * pattern and a lemma that the two agree.
 *
 * Patterns are used through `String.matches` / `Matcher.matches`, so they must
 * cover the whole input; a trailing line terminator is not absorbed by `$`.
 */
module Patterns {
  import opened Results
  import opened JavaText

  // ---------------------------------------------------------------------------
  // [\w.-]+@[\w.-]+\.TLD
  // ---------------------------------------------------------------------------

  /** The last component after the final dot: `\w{2,}` (InputValidator) or
      `[a-zA-Z]{2,6}` (Contact). */
  datatype TldRule = WordTld | LetterTld

  predicate TldChar(rule: TldRule, c: char)
  {
    match rule
    case WordTld => IsWordChar(c)
    case LetterTld => IsAsciiLetter(c)
  }

  predicate TldMatches(rule: TldRule, t: string)
  {
    && 2 <= |t|
    && (rule.LetterTld? ==> |t| <= 6)
    && forall i :: 0 <= i < |t| ==> TldChar(rule, t[i])
  }

  /** The class `[\w.-]`. */
  predicate AddressChar(c: char)
  {
    IsWordChar(c) || c == '.' || c == '-'
  }

  predicate AllAddressChars(s: string)
  {
    forall i :: 0 <= i < |s| ==> AddressChar(s[i])
  }

  /** `s` splits as local part, `@` at `at`, domain, `.` at `dot`, top-level domain. */
  predicate EmailSplit(s: string, rule: TldRule, at: nat, dot: nat)
  {
    && 0 < at && at + 1 < dot < |s|
    && s[at] == '@' && s[dot] == '.'
    && AllAddressChars(s[..at])
    && AllAddressChars(s[at + 1..dot])
    && TldMatches(rule, s[dot + 1..])
  }

  /** The pattern's meaning: some way of cutting the input matches it. */
  ghost predicate EmailShapeSpec(s: string, rule: TldRule)
  {
    exists at: nat, dot: nat :: EmailSplit(s, rule, at, dot)
  }

  /** The matcher: neither `\w`, `.` nor `-` is `@`, so the `@` is the first one;
      the top-level domain holds no dot, so the separating dot is the last one. */
  predicate MatchesEmailShape(s: string, rule: TldRule)
  {
    match (IndexOf(s, '@'), LastIndexOf(s, '.'))
    case (Some(at), Some(dot)) => EmailSplit(s, rule, at, dot)
    case _ => false
  }

  /** A local part followed by `@`, a domain and a top-level domain splits
      at the `@` and at the dot. */
  lemma EmailSplitOfParts(local: string, domain: string, k: nat)
    requires |local| > 0 && AllAddressChars(local)
    requires 1 < k < |domain| && domain[0] == '@' && domain[k] == '.'
    requires AllAddressChars(domain[1..k]) && TldMatches(WordTld, domain[k + 1..])
    ensures EmailSplit(local + domain, WordTld, |local|, |local| + k)
  {
    var e := local + domain;
    var at := |local|;
    Split(local, domain);
    assert e[at + 1..at + k] == domain[1..k];
    assert e[at + k + 1..] == domain[k + 1..];
  }

  /** A word-character top-level domain of at most six letters also
      passes the letters-only rule. */
  lemma LetterTldFromWord(s: string, at: nat, dot: nat)
    requires EmailSplit(s, WordTld, at, dot) && |s| - dot - 1 <= 6
    requires forall k :: dot < k < |s| ==> IsAsciiLetter(s[k])
    ensures EmailSplit(s, LetterTld, at, dot)
  {
    var t := s[dot + 1..];
    forall i | 0 <= i < |t| ensures TldChar(LetterTld, t[i]) {
      assert t[i] == s[dot + 1 + i];
    }
  }

  /** The matcher accepts exactly the inputs the pattern describes, and the cut
      is unique. */
  lemma EmailMatcherIsPattern(s: string, rule: TldRule)
    ensures MatchesEmailShape(s, rule) <==> EmailShapeSpec(s, rule)
    ensures forall at: nat, dot: nat :: EmailSplit(s, rule, at, dot) ==>
      IndexOf(s, '@') == Some(at) && LastIndexOf(s, '.') == Some(dot)
  {
    forall at: nat, dot: nat | EmailSplit(s, rule, at, dot)
      ensures IndexOf(s, '@') == Some(at) && LastIndexOf(s, '.') == Some(dot)
    {
      SplitFixesCut(s, rule, at, dot);
    }
    if EmailShapeSpec(s, rule) {
      var at: nat, dot: nat :| EmailSplit(s, rule, at, dot);
      SplitFixesCut(s, rule, at, dot);
    }
  }

  lemma SplitFixesCut(s: string, rule: TldRule, at: nat, dot: nat)
    requires EmailSplit(s, rule, at, dot)
    ensures IndexOf(s, '@') == Some(at) && LastIndexOf(s, '.') == Some(dot)
  {
    assert '@' !in s[..at] by {
      forall i | 0 <= i < at ensures s[..at][i] != '@' {
        assert AddressChar(s[..at][i]);
      }
    }
    var t := s[dot + 1..];
    assert '.' !in t by {
      forall i | 0 <= i < |t| ensures t[i] != '.' {
        assert TldChar(rule, t[i]);
      }
    }
  }

  // ---------------------------------------------------------------------------
  // Phone numbers
  // ---------------------------------------------------------------------------

  /** `^\+\d{8,15}$` (InputValidator) */
  predicate MatchesPlusDigits(s: string)
  {
    1 <= |s| && s[0] == '+' && 8 <= |s| - 1 <= 15 && AllDigits(s[1..])
  }

  /** `\+?[0-9]{7,15}` (Contact): an optional plus, then 7 to 15 digits. */
  predicate MatchesOptionalPlusDigits(s: string)
  {
    var digits := if |s| > 0 && s[0] == '+' then s[1..] else s;
    7 <= |digits| <= 15 && AllDigits(digits)
  }

  /** Without the plus the digits start at once; with it, they follow it. */
  lemma OptionalPlusDigitsCases(s: string)
    ensures MatchesOptionalPlusDigits(s) <==>
      || (7 <= |s| <= 15 && AllDigits(s))
      || (|s| > 0 && s[0] == '+' && 7 <= |s| - 1 <= 15 && AllDigits(s[1..]))
  {
    if |s| > 0 && s[0] == '+' {
      assert !IsAsciiDigit(s[0]);
    }
  }

  // ---------------------------------------------------------------------------
  // ^https?://(www\.)?linkedin\.com/.*$
  // ---------------------------------------------------------------------------

  predicate NoLineTerminator(s: string)
  {
    forall i :: 0 <= i < |s| ==> !IsLineTerminator(s[i])
  }

  /** The part after the scheme: an optional `www.`, the host, a slash, then
      any characters but line terminators. */
  predicate MatchesLinkedinHost(rest: string)
  {
    || (StartsWith(rest, "linkedin.com/") && NoLineTerminator(rest[13..]))
    || (StartsWith(rest, "www.linkedin.com/") && NoLineTerminator(rest[17..]))
  }

  predicate MatchesLinkedinUrl(s: string)
  {
    || (StartsWith(s, "http://") && MatchesLinkedinHost(s[7..]))
    || (StartsWith(s, "https://") && MatchesLinkedinHost(s[8..]))
  }

  /** HTTP or HTTPS, with or without `www.`, then `linkedin.com/` and any
      single-line path, is accepted. */
  lemma LinkedinUrlAccepted(secure: bool, www: bool, path: string)
    requires NoLineTerminator(path)
    ensures MatchesLinkedinUrl((if secure then "https://" else "http://") + (if www then "www." else "") + "linkedin.com/" + path)
  {
    var scheme := if secure then "https://" else "http://";
    var rest := (if www then "www." else "") + "linkedin.com/" + path;
    LinkedinHostAccepted(www, path);
    Split(scheme, rest);
    assert scheme + rest == (if secure then "https://" else "http://") + (if www then "www." else "") + "linkedin.com/" + path;
  }

  lemma LinkedinHostAccepted(www: bool, path: string)
    requires NoLineTerminator(path)
    ensures MatchesLinkedinHost((if www then "www." else "") + "linkedin.com/" + path)
  {
    var host := (if www then "www." else "") + "linkedin.com/";
    Split(host, path);
  }

  lemma Split(p: string, q: string)
    ensures (p + q)[..|p|] == p && (p + q)[|p|..] == q
  {
  }

  /** The slash after the host is required. */
  lemma LinkedinUrlNeedsPath()
    ensures !MatchesLinkedinUrl("https://linkedin.com")
  {
    var n := "https://linkedin.com";
    assert !StartsWith(n, "http://") by { assert n[..7][4] != ':'; }
    assert |n[8..]| < 13;
  }

  /** Other schemes are refused. */
  lemma LinkedinUrlNeedsHttp()
    ensures !MatchesLinkedinUrl("ftp://linkedin.com/x")
  {
    var f := "ftp://linkedin.com/x";
    assert !StartsWith(f, "http://") by { assert f[..7][0] != 'h'; }
    assert !StartsWith(f, "https://") by { assert f[..8][0] != 'h'; }
  }

  /** `.*` stops at a line terminator, so a URL spanning two lines is refused. */
  lemma LinkedinUrlSingleLine()
    ensures !MatchesLinkedinUrl("https://www.linkedin.com/a\nb")
  {
    var u := "https://www.linkedin.com/a\nb";
    var rest := u[8..];
    assert !NoLineTerminator(rest[17..]) by {
      assert rest[17..][1] == '\n';
    }
    assert !StartsWith(rest, "linkedin.com/") by {
      assert rest[..13][0] != 'l';
    }
    assert !StartsWith(u, "http://") by { assert u[..7][4] != ':'; }
  }
}
