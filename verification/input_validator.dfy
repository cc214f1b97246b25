/**
 * main/src/utils/InputValidator.java: the field validators and the name
 * formatter shared by the menu controllers. `LocalDate.now()` is the
 * parameter `today`.
 */
module InputValidator {
  import opened Results
  import opened JavaText
  import opened Calendar
  import opened Patterns

  // ---------------------------------------------------------------------------
  // isValidPhoneNumber
  // ---------------------------------------------------------------------------

  /** The allowed country codes, in the order the loop tries them. */
  const PhoneCodes: seq<string> := ["+234", "+90", "+91", "+86", "+81", "+55", "+44", "+20", "+7", "+1"]

  /** Digits expected after each code. */
  const PhoneLengths: seq<nat> := [10, 10, 10, 11, 10, 11, 10, 10, 10, 10]

  /** The number is exactly `code` followed by `PhoneLengths[i]` digits. */
  predicate FitsCode(phone: string, i: nat)
    requires i < |PhoneCodes|
  {
    && StartsWith(phone, PhoneCodes[i])
    && |phone| - |PhoneCodes[i]| == PhoneLengths[i]
    && AllDigits(phone[|PhoneCodes[i]|..])
  }

  /** The loop from index `i` on: the first code the number starts with decides. */
  function CheckCodesFrom(phone: string, i: nat): bool
    requires i <= |PhoneCodes|
    decreases |PhoneCodes| - i
  {
    if i == |PhoneCodes| then false
    else if StartsWith(phone, PhoneCodes[i]) then FitsCode(phone, i)
    else CheckCodesFrom(phone, i + 1)
  }

  /** `isValidPhoneNumber(phone)` */
  function IsValidPhoneNumber(phone: Option<string>): (r: bool)
    ensures r ==> phone.Some? && MatchesPlusDigits(phone.value)
  {
    match phone
    case None => false
    case Some(p) => MatchesPlusDigits(p) && CheckCodesFrom(p, 0)
  }

  /** No code is a prefix of another, so at most one code fits a number. */
  lemma CodesArePrefixFree(i: nat, j: nat)
    requires i < |PhoneCodes| && j < |PhoneCodes| && i != j
    ensures !StartsWith(PhoneCodes[j], PhoneCodes[i])
  {
    var p, q := PhoneCodes[i], PhoneCodes[j];
    if |p| <= |q| {
      var k := if p[1] != q[1] then 1 else 2;
      assert k < |p| && q[..|p|][k] != p[k];
    }
  }

  lemma CommonPrefix(s: string, p: string, q: string)
    requires StartsWith(s, p) && StartsWith(s, q) && |p| <= |q|
    ensures StartsWith(q, p)
  {
    assert q[..|p|] == s[..|q|][..|p|];
  }

  lemma {:induction false} CheckCodesFromSpec(phone: string, i: nat)
    requires i <= |PhoneCodes|
    ensures CheckCodesFrom(phone, i) <==> exists j :: i <= j < |PhoneCodes| && FitsCode(phone, j)
    decreases |PhoneCodes| - i
  {
    if i < |PhoneCodes| {
      CheckCodesFromSpec(phone, i + 1);
      if StartsWith(phone, PhoneCodes[i]) {
        forall j | i < j < |PhoneCodes| && FitsCode(phone, j) ensures false {
          if |PhoneCodes[i]| <= |PhoneCodes[j]| {
            CommonPrefix(phone, PhoneCodes[i], PhoneCodes[j]);
            CodesArePrefixFree(i, j);
          } else {
            CommonPrefix(phone, PhoneCodes[j], PhoneCodes[i]);
            CodesArePrefixFree(j, i);
          }
        }
      }
    }
  }

  /** A number is valid exactly when it is `+` and digits, and it is one of the
      allowed codes followed by that code's number of digits. Every such number
      has 8 to 15 digits, so the length bound of the pattern never decides. */
  lemma PhoneNumberSpec(p: string)
    ensures IsValidPhoneNumber(Some(p)) <==>
      && |p| > 0 && p[0] == '+' && AllDigits(p[1..])
      && exists j :: 0 <= j < |PhoneCodes| && StartsWith(p, PhoneCodes[j])
                     && |p| == |PhoneCodes[j]| + PhoneLengths[j]
  {
    CheckCodesFromSpec(p, 0);
    if |p| > 0 && p[0] == '+' && AllDigits(p[1..]) {
      if j :| 0 <= j < |PhoneCodes| && StartsWith(p, PhoneCodes[j]) && |p| == |PhoneCodes[j]| + PhoneLengths[j] {
        assert 9 <= |PhoneCodes[j]| + PhoneLengths[j] <= 16;
        assert p[|PhoneCodes[j]|..] == p[1..][|PhoneCodes[j]| - 1..];
        assert FitsCode(p, j);
      }
    }
  }

  lemma PhoneNumberExamples()
    ensures IsValidPhoneNumber(Some("+905551234567"))
    ensures !IsValidPhoneNumber(Some("+90555123456"))
    ensures !IsValidPhoneNumber(Some("+9955512345678"))
    ensures !IsValidPhoneNumber(None)
  {
    TurkishNumberLength();
    UnknownCodeRefused();
  }

  lemma TurkishNumberLength()
    ensures IsValidPhoneNumber(Some("+905551234567"))
    ensures !IsValidPhoneNumber(Some("+90555123456"))
  {
    PhoneNumberSpec("+905551234567");
    PhoneNumberSpec("+90555123456");
    assert StartsWith("+905551234567", PhoneCodes[1]);
  }

  lemma UnknownCodeRefused()
    ensures !IsValidPhoneNumber(Some("+9955512345678"))
  {
    PhoneNumberSpec("+9955512345678");
    var bad := "+9955512345678";
    forall j | 0 <= j < |PhoneCodes| ensures !StartsWith(bad, PhoneCodes[j]) {
      assert DiffersAt(bad, PhoneCodes[j], 1) || DiffersAt(bad, PhoneCodes[j], 2);
    }
  }

  /** `s` and `p` both have a character at `k`, and they differ. */
  predicate DiffersAt(s: string, p: string, k: nat)
  {
    k < |s| && k < |p| && s[k] != p[k]
  }

  // ---------------------------------------------------------------------------
  // isValidEmail
  // ---------------------------------------------------------------------------

  const AllowedDomains: seq<string> := ["@gmail.com", "@outlook.com", "@hotmail.com", "@yahoo.com", "@protonmail.com"]

  /** `isValidEmail(email)`: the address shape, then the lower-cased address
      must end with one of the allowed domains. */
  function IsValidEmail(email: Option<string>): (r: bool)
    ensures r ==> email.Some? && EmailShapeSpec(email.value, WordTld)
  {
    match email
    case None => false
    case Some(e) =>
      EmailMatcherIsPattern(e, WordTld);
      && MatchesEmailShape(e, WordTld)
      && exists i :: 0 <= i < |AllowedDomains| && EndsWith(ToLower(e), AllowedDomains[i])
  }

  /** In a matched address the `@` at the cut is the only one. */
  lemma OnlyOneAtSign(s: string, rule: TldRule, at: nat, dot: nat)
    requires EmailSplit(s, rule, at, dot)
    ensures forall i :: 0 <= i < |s| && i != at ==> s[i] != '@'
  {
    forall i | 0 <= i < |s| && i != at ensures s[i] != '@' {
      if i < at {
        assert AddressChar(s[..at][i]);
      } else if at < i < dot {
        assert AddressChar(s[at + 1..dot][i - at - 1]);
      } else if i > dot {
        assert TldChar(rule, s[dot + 1..][i - dot - 1]);
      }
    }
  }

  lemma EndsWithDomain(s: string, at: nat, d: string)
    requires at < |s| && s[at] == '@'
    requires forall i :: 0 <= i < |s| && i != at ==> s[i] != '@'
    requires |d| > 0 && d[0] == '@'
    ensures EndsWith(ToLower(s), d) <==> ToLower(s[at..]) == d
  {
    assert ToLower(s)[at..] == ToLower(s[at..]);
    if EndsWith(ToLower(s), d) {
      assert ToLower(s)[|s| - |d|] == '@';
      assert |s| - |d| == at;
    }
  }

  /** An accepted address is a matched address whose part from the `@` on is,
      ignoring case, one of the five allowed domains; any other domain is refused. */
  lemma EmailDomainSpec(e: string)
    ensures IsValidEmail(Some(e)) <==>
      && MatchesEmailShape(e, WordTld)
      && exists i :: 0 <= i < |AllowedDomains| && ToLower(e[IndexOf(e, '@').value..]) == AllowedDomains[i]
  {
    if MatchesEmailShape(e, WordTld) {
      var at := IndexOf(e, '@').value;
      var dot := LastIndexOf(e, '.').value;
      OnlyOneAtSign(e, WordTld, at, dot);
      forall i | 0 <= i < |AllowedDomains|
        ensures EndsWith(ToLower(e), AllowedDomains[i]) <==> ToLower(e[at..]) == AllowedDomains[i]
      {
        EndsWithDomain(e, at, AllowedDomains[i]);
      }
    }
  }

  /** Every allowed domain ends in `.com`. */
  lemma AllowedDomainsEndInCom(i: nat)
    requires i < |AllowedDomains|
    ensures |AllowedDomains[i]| >= 5 && AllowedDomains[i][|AllowedDomains[i]| - 4..] == ".com"
  {
  }

  /** An address whose lower-cased tail is an allowed domain ends in a dot and
      three ASCII letters. */
  lemma AllowedTail(e: string, at: nat, i: nat)
    requires at < |e| && i < |AllowedDomains| && ToLower(e[at..]) == AllowedDomains[i]
    ensures |e| >= 4 && e[|e| - 4] == '.'
    ensures forall k :: |e| - 3 <= k < |e| ==> IsAsciiLetter(e[k])
  {
    var d := AllowedDomains[i];
    AllowedDomainsEndInCom(i);
    var n := |e|;
    assert ToLower(e[at..])[|d| - 4] == '.';
    assert e[at..][|d| - 4] == e[n - 4];
    forall k | n - 3 <= k < n ensures IsAsciiLetter(e[k]) {
      assert ToLowerChar(e[at..][k - at]) == d[k - at];
      assert 'a' <= d[k - at] <= 'z' by {
        assert d[k - at] == d[|d| - 4..][k - at - (|d| - 4)];
      }
    }
  }

  /** Every address the validator accepts also passes the stricter-looking
      top-level-domain pattern of `Contact.isValidEmail`. */
  lemma ValidatorEmailIsContactEmail(e: string)
    ensures IsValidEmail(Some(e)) ==> MatchesEmailShape(e, LetterTld)
  {
    if IsValidEmail(Some(e)) {
      EmailDomainSpec(e);
      var at := IndexOf(e, '@').value;
      var dot := LastIndexOf(e, '.').value;
      var i :| 0 <= i < |AllowedDomains| && ToLower(e[at..]) == AllowedDomains[i];
      LetterTldOfAllowed(e, at, dot, i);
    }
  }

  lemma LetterTldOfAllowed(e: string, at: nat, dot: nat, i: nat)
    requires EmailSplit(e, WordTld, at, dot) && LastIndexOf(e, '.') == Some(dot)
    requires i < |AllowedDomains| && ToLower(e[at..]) == AllowedDomains[i]
    ensures EmailSplit(e, LetterTld, at, dot)
  {
    AllowedTail(e, at, i);
    assert dot == |e| - 4;
    LetterTldFromWord(e, at, dot);
  }

  /** Any well-formed local part at gmail.com is accepted. */
  lemma EmailAcceptedExample(local: string)
    requires |local| > 0 && AllAddressChars(local)
    ensures IsValidEmail(Some(local + "@gmail.com"))
  {
    var e := local + "@gmail.com";
    var at := |local|;
    var d := "@gmail.com";
    assert d[1..6] == "gmail" && d[7..] == "com";
    EmailSplitOfParts(local, d, 6);
    Split(local, d);
    assert ToLower(e[at..]) == AllowedDomains[0] by {
      assert ToLower(d) == d;
    }
    EmailMatcherIsPattern(e, WordTld);
    assert IndexOf(e, '@') == Some(at);
    EmailDomainSpec(e);
  }

  /** A well-formed address on a domain outside the list is refused. */
  lemma EmailOtherDomainExample(local: string)
    requires |local| > 0 && AllAddressChars(local)
    ensures !IsValidEmail(Some(local + "@example.com"))
  {
    var e := local + "@example.com";
    var at := |local|;
    var d := "@example.com";
    assert d[1..8] == "example" && d[9..] == "com";
    EmailSplitOfParts(local, d, 8);
    Split(local, d);
    assert ToLower(e[at..]) == d by {
      assert ToLower(d) == d;
    }
    assert forall i :: 0 <= i < |AllowedDomains| ==> AllowedDomains[i] != d;
    EmailMatcherIsPattern(e, WordTld);
    assert IndexOf(e, '@') == Some(at);
    EmailDomainSpec(e);
  }

  // ---------------------------------------------------------------------------
  // isValidDate
  // ---------------------------------------------------------------------------

  /** `isValidDate(date)`: `LocalDate.parse` with ISO_LOCAL_DATE succeeds.
      Every text `LocalDate.toString` prints is accepted; a text whose year
      has no sign is accepted iff it is the printed text of a date in
      0000..9999; an accepted text names a real date of LocalDate's range. */
  function IsValidDate(date: Option<string>): (r: bool)
    ensures date.Some? && (exists d :: Valid(d) && InYearRange(d.year) && FormatIsoLocalDate(d) == date.value) ==> r
    ensures date.Some? && |date.value| > 0 && IsAsciiDigit(date.value[0]) ==>
      (r <==> exists d :: Valid(d) && 0 <= d.year <= 9999 && FormatIsoLocalDate(d) == date.value)
    ensures r ==> date.Some? && exists d :: Valid(d) && InYearRange(d.year) && ParseIsoLocalDate(date.value) == Some(d)
  {
    match date
    case None => false
    case Some(s) =>
      if ParseIsoLocalDate(s).Some? then
        FormatParseRoundTrip(s);
        true
      else
        assert forall d :: Valid(d) && InYearRange(d.year) ==> FormatIsoLocalDate(d) != s by {
          forall d | Valid(d) && InYearRange(d.year) ensures FormatIsoLocalDate(d) != s {
            ParseFormatRoundTrip(d);
          }
        }
        false
  }

  /** Signed years pass: the year before year 0, and a five-digit year. */
  lemma SignedYearDatesValid()
    ensures IsValidDate(Some("-0001-01-01"))
    ensures IsValidDate(Some("+10000-01-01"))
    ensures !IsValidDate(Some("+2024-01-01"))
  {
    MinusOneYearParses();
    FiveDigitYearParses();
    SignedYearsRefused();
  }

  // ---------------------------------------------------------------------------
  // Names
  // ---------------------------------------------------------------------------

  /** The pattern `^[\p{L}]+$`: one letter, then more. */
  predicate LettersPlus(s: string)
  {
    |s| > 0 && IsLetter(s[0]) && (|s| == 1 || LettersPlus(s[1..]))
  }

  /** `containsOnlyLetters(name)` */
  function ContainsOnlyLetters(name: Option<string>): (r: bool)
    ensures r <==> name.Some? && |name.value| > 0 && forall i :: 0 <= i < |name.value| ==> IsLetter(name.value[i])
  {
    match name
    case None => false
    case Some(s) =>
      LettersPlusSpec(s);
      LettersPlus(s)
  }

  lemma {:induction false} LettersPlusSpec(s: string)
    ensures LettersPlus(s) <==> |s| > 0 && forall i :: 0 <= i < |s| ==> IsLetter(s[i])
  {
    if |s| > 1 {
      LettersPlusSpec(s[1..]);
      if forall i :: 0 <= i < |s| ==> IsLetter(s[i]) {
        assert forall i :: 0 <= i < |s| - 1 ==> IsLetter(s[1..][i]);
      }
    }
  }

  const MaxNameLength: nat := 50

  /** `isValidNameLength(name)`: present, not all blanks (as `trim` counts
      them), and at most 50 characters counting any surrounding blanks. */
  function IsValidNameLength(name: Option<string>): (r: bool)
    ensures r <==> name.Some? && (exists i :: 0 <= i < |name.value| && name.value[i] > ' ') && Utf16Length(name.value) <= MaxNameLength
  {
    match name
    case None => false
    case Some(s) => Trim(s) != [] && Utf16Length(s) <= MaxNameLength
  }

  /** `getNameErrorMessage(name, fieldName)`: the first failing check's message,
      prefixed with the field name, or `None` (null) when the name is fine. */
  function GetNameErrorMessage(name: Option<string>, fieldName: Option<string>): (r: Option<string>)
    ensures r.None? <==> IsValidNameLength(name) && ContainsOnlyLetters(name)
    ensures r.Some? ==> StartsWith(r.value, Show(fieldName))
    ensures name.None? || TrimIsEmpty(name.value) ==> r == Some(Show(fieldName) + " cannot be empty")
    ensures name.Some? && !TrimIsEmpty(name.value) && Utf16Length(name.value) > MaxNameLength ==>
      r == Some(Show(fieldName) + " must be at most 50 characters (current: " + IntToString(Utf16Length(name.value)) + ")")
    ensures IsValidNameLength(name) && !ContainsOnlyLetters(name) ==> r == Some(Show(fieldName) + " must contain only letters")
  {
    if name.None? || Trim(name.value) == [] then
      Some(Show(fieldName) + " cannot be empty")
    else if Utf16Length(name.value) > MaxNameLength then
      Some(Show(fieldName) + " must be at most 50 characters (current: " + IntToString(Utf16Length(name.value)) + ")")
    else if !ContainsOnlyLetters(name) then
      Some(Show(fieldName) + " must contain only letters")
    else
      None
  }

  /** A blank name is reported as empty even when it is also too long. */
  lemma BlankBeforeLength(fieldName: Option<string>)
    ensures GetNameErrorMessage(Some(seq(60, i => ' ')), fieldName) == Some(Show(fieldName) + " cannot be empty")
  {
    var s := seq(60, i => ' ');
    assert forall i :: 0 <= i < |s| ==> s[i] <= ' ';
  }

  /** Java counts a character above U+FFFF as two: 49 letters and one emoji
      make 51, one too many. */
  lemma SupplementaryCharCountsTwice(fieldName: Option<string>)
    ensures Utf16Length(seq(49, i => 'a') + "\U{1F600}") == 51
    ensures !IsValidNameLength(Some(seq(49, i => 'a') + "\U{1F600}"))
    ensures GetNameErrorMessage(Some(seq(49, i => 'a') + "\U{1F600}"), fieldName) ==
      Some(Show(fieldName) + " must be at most 50 characters (current: 51)")
  {
    var a := seq(49, i => 'a');
    Utf16LengthOfBmp(a);
    Utf16LengthAppend(a, '\U{1F600}');
    assert a + "\U{1F600}" == a + ['\U{1F600}'];
    assert (a + "\U{1F600}")[0] > ' ';
    assert IntToString(51) == "51" by {
      assert DigitChar(5) == '5' && DigitChar(1) == '1';
      assert NatToString(5) == "5";
      assert NatToString(51) == NatToString(5) + [DigitChar(1)];
    }
    var name := a + "\U{1F600}";
    assert !TrimIsEmpty(name);
    assert Utf16Length(name) > MaxNameLength;
    assert GetNameErrorMessage(Some(name), fieldName) ==
      Some(Show(fieldName) + " must be at most 50 characters (current: " + IntToString(51) + ")");
    assert Show(fieldName) + " must be at most 50 characters (current: " + IntToString(51) + ")"
      == Show(fieldName) + " must be at most 50 characters (current: 51)";
  }

  // ---------------------------------------------------------------------------
  // formatName
  // ---------------------------------------------------------------------------

  /** Word separators of `formatName`. */
  predicate IsNameSeparator(c: char)
  {
    IsWhitespace(c) || c == '-'
  }

  /** The loop of `formatName` over `s`, with its `capitalizeNext` flag. */
  function FormatChars(s: string, capitalizeNext: bool): (r: string)
    ensures |r| == |s|
  {
    if |s| == 0 then []
    else if IsNameSeparator(s[0]) then [s[0]] + FormatChars(s[1..], true)
    else if capitalizeNext then [ToUpperChar(s[0])] + FormatChars(s[1..], false)
    else [ToLowerChar(s[0])] + FormatChars(s[1..], false)
  }

  /** What `formatName` does to the character at index `i` of the trimmed
      name: separators are kept, the first character of each word (the start
      of the name, or after a separator) is upper-cased, the rest lower-cased.
      `capitalizeFirst` is the flag's value before index 0. */
  function FormattedCharAt(t: string, i: nat, capitalizeFirst: bool): char
    requires i < |t|
  {
    if IsNameSeparator(t[i]) then t[i]
    else if (if i == 0 then capitalizeFirst else IsNameSeparator(t[i - 1])) then ToUpperChar(t[i])
    else ToLowerChar(t[i])
  }

  lemma {:induction false} FormatCharsSpec(s: string, capitalizeNext: bool)
    ensures forall i :: 0 <= i < |s| ==> FormatChars(s, capitalizeNext)[i] == FormattedCharAt(s, i, capitalizeNext)
  {
    if |s| > 0 {
      var next := IsNameSeparator(s[0]);
      FormatCharsSpec(s[1..], next);
      forall i | 1 <= i < |s|
        ensures FormatChars(s, capitalizeNext)[i] == FormattedCharAt(s, i, capitalizeNext)
      {
        assert FormatChars(s, capitalizeNext)[i] == FormatChars(s[1..], next)[i - 1];
        assert s[1..][i - 1] == s[i];
      }
    }
  }

  /** `formatName(name)`: null or blank input comes back unchanged; otherwise
      the trimmed name with separators kept, each word's first character
      upper-cased and every other character lower-cased. */
  function FormatName(name: Option<string>): (r: Option<string>)
    ensures name.None? || TrimIsEmpty(name.value) ==> r == name
    ensures name.Some? && !TrimIsEmpty(name.value) ==>
      && r.Some? && |r.value| == |Trim(name.value)|
      && forall i :: 0 <= i < |r.value| ==> r.value[i] == FormattedCharAt(Trim(name.value), i, true)
  {
    match name
    case None => name
    case Some(s) =>
      if Trim(s) == [] then name
      else
        FormatCharsSpec(Trim(s), true);
        Some(FormatChars(Trim(s), true))
  }

  /** Case mapping keeps separators, non-blanks and already-mapped characters as they are. */
  lemma CaseMappingKeepsClass(c: char)
    ensures IsNameSeparator(ToUpperChar(c)) == IsNameSeparator(c)
    ensures IsNameSeparator(ToLowerChar(c)) == IsNameSeparator(c)
    ensures c > ' ' ==> ToUpperChar(c) > ' ' && ToLowerChar(c) > ' '
    ensures ToUpperChar(ToUpperChar(c)) == ToUpperChar(c)
    ensures ToLowerChar(ToLowerChar(c)) == ToLowerChar(c)
  {
  }

  /** Formatting keeps each character's class: separators stay separators,
      non-blanks stay non-blank. */
  lemma FormatCharsKeepsClass(t: string, i: nat)
    requires i < |t|
    ensures IsNameSeparator(FormatChars(t, true)[i]) == IsNameSeparator(t[i])
    ensures t[i] > ' ' ==> FormatChars(t, true)[i] > ' '
  {
    FormatCharsSpec(t, true);
    CaseMappingKeepsClass(t[i]);
  }

  lemma FormatCharsTrimmed(t: string)
    requires |t| > 0 && t[0] > ' ' && t[|t| - 1] > ' '
    ensures Trim(FormatChars(t, true)) == FormatChars(t, true)
  {
    FormattedEnds(t);
    TrimOfNonBlankEnds(FormatChars(t, true));
  }

  lemma FormattedEnds(t: string)
    requires |t| > 0 && t[0] > ' ' && t[|t| - 1] > ' '
    ensures |FormatChars(t, true)| == |t|
    ensures FormatChars(t, true)[0] > ' ' && FormatChars(t, true)[|t| - 1] > ' '
  {
    FormatCharsKeepsClass(t, 0);
    FormatCharsKeepsClass(t, |t| - 1);
  }

  lemma FormatCharsTwice(t: string)
    ensures FormatChars(FormatChars(t, true), true) == FormatChars(t, true)
  {
    var f := FormatChars(t, true);
    var g := FormatChars(f, true);
    FormatCharsSpec(t, true);
    FormatCharsSpec(f, true);
    forall i | 0 <= i < |f| ensures g[i] == f[i] {
      FormatCharsKeepsClass(t, i);
      if i > 0 {
        FormatCharsKeepsClass(t, i - 1);
      }
      CaseMappingKeepsClass(t[i]);
    }
  }

  /** Formatting a formatted name changes nothing. */
  lemma FormatNameIdempotent(name: Option<string>)
    ensures FormatName(FormatName(name)) == FormatName(name)
  {
    if name.Some? && !TrimIsEmpty(name.value) {
      var t := Trim(name.value);
      FormatCharsTrimmed(t);
      FormatCharsTwice(t);
    }
  }

  // ---------------------------------------------------------------------------
  // Birth dates
  // ---------------------------------------------------------------------------

  const MaxAgeYears: nat := 150

  /** `isValidBirthdate(date)`: a real date strictly before today and not
      before the same day 150 years ago. */
  function IsValidBirthdate(date: Option<string>, today: Date): (r: bool)
    requires Valid(today)
    ensures r <==>
      && date.Some? && ParseIsoLocalDate(date.value).Some?
      && Before(ParseIsoLocalDate(date.value).value, today)
      && !Before(ParseIsoLocalDate(date.value).value, MinusYears(today, MaxAgeYears))
  {
    match date
    case None => false
    case Some(s) =>
      match ParseIsoLocalDate(s)
      case None => false
      case Some(birth) =>
        if Before(today, birth) then false
        else if birth == today then false
        else if Before(birth, MinusYears(today, MaxAgeYears)) then false
        else true
  }

  const EmptyBirthdate := "Birthdate cannot be empty"
  const BadBirthdateFormat := "Invalid date format. Please use yyyy-MM-dd format (e.g., 1995-03-15). Note: Invalid dates like February 30 are not allowed."
  const FutureBirthdate := "Birthdate cannot be in the future"
  const TodayBirthdate := "Birthdate cannot be today"
  const AncientBirthdate := "Birthdate is too far in the past (max 150 years)"

  /** `getBirthdateErrorMessage(date)`: checked in the order empty, unparseable,
      future, today, too old. */
  function GetBirthdateErrorMessage(date: Option<string>, today: Date): (r: Option<string>)
    requires Valid(today)
    ensures r.Some? ==> r.value in {EmptyBirthdate, BadBirthdateFormat, FutureBirthdate, TodayBirthdate, AncientBirthdate}
    ensures date.None? || TrimIsEmpty(date.value) ==> r == Some(EmptyBirthdate)
    ensures date.Some? && !TrimIsEmpty(date.value) && ParseIsoLocalDate(date.value).None? ==> r == Some(BadBirthdateFormat)
    ensures date.Some? && ParseIsoLocalDate(date.value).Some? && Before(today, ParseIsoLocalDate(date.value).value) ==>
      r == Some(FutureBirthdate)
    ensures date.Some? && ParseIsoLocalDate(date.value) == Some(today) ==> r == Some(TodayBirthdate)
    ensures (date.Some? && ParseIsoLocalDate(date.value).Some? && Before(ParseIsoLocalDate(date.value).value, today)
      && Before(ParseIsoLocalDate(date.value).value, MinusYears(today, MaxAgeYears))) ==> r == Some(AncientBirthdate)
  {
    if date.None? || Trim(date.value) == [] then Some(EmptyBirthdate)
    else
      match ParseIsoLocalDate(date.value)
      case None => Some(BadBirthdateFormat)
      case Some(birth) =>
        if Before(today, birth) then Some(FutureBirthdate)
        else if birth == today then Some(TodayBirthdate)
        else if Before(birth, MinusYears(today, MaxAgeYears)) then Some(AncientBirthdate)
        else None
  }

  /** The message is absent exactly when the birth date is valid: a blank
      input never parses, so the extra blank check adds no failure. */
  lemma BirthdateMessageMatchesValidity(date: Option<string>, today: Date)
    requires Valid(today)
    ensures GetBirthdateErrorMessage(date, today).None? <==> IsValidBirthdate(date, today)
  {
    if date.Some? && Trim(date.value) == [] {
      var s := date.value;
      if |s| == 10 {
        assert s[4] <= ' ';
      }
    }
  }

  /** The oldest accepted birth date is exactly 150 years before today; February 30
      is refused whatever day it is. */
  lemma BirthdateBoundaries(today: Date)
    requires Valid(today) && InYearRange(today.year - MaxAgeYears)
    ensures IsValidBirthdate(Some(FormatIsoLocalDate(MinusYears(today, MaxAgeYears))), today)
    ensures !IsValidBirthdate(Some("2024-02-30"), today)
  {
    var oldest := MinusYears(today, MaxAgeYears);
    ParseFormatRoundTrip(oldest);
    StrictDayOfMonth();
  }

  /** Signed years reach the date checks: the year before year 0 is too far
      in the past, and a five-digit year is in the future. */
  lemma SignedYearBirthdates(today: Date)
    requires Valid(today) && MaxAgeYears <= today.year <= 9999
    ensures GetBirthdateErrorMessage(Some("-0001-01-01"), today) == Some(AncientBirthdate)
    ensures GetBirthdateErrorMessage(Some("+10000-01-01"), today) == Some(FutureBirthdate)
  {
    MinusOneYearParses();
    FiveDigitYearParses();
    assert !TrimIsEmpty("-0001-01-01") by { assert "-0001-01-01"[0] > ' '; }
    assert !TrimIsEmpty("+10000-01-01") by { assert "+10000-01-01"[0] > ' '; }
  }
}
