/**
 * The parts of java.lang.String, java.lang.Character and java.lang.Integer/Long
 * that the application relies on, stated over Dafny strings (`seq<char>`).
 *
 * Character classes follow java.util.regex without UNICODE_CHARACTER_CLASS:
 * `\d` and `\w` are ASCII only. Case mapping is ASCII only; letters (`\p{L}`)
 * cover ASCII, Latin-1 and Latin Extended-A.
 */
module JavaText {
  import opened Results

  const MinInt32: int := -0x8000_0000
  const MaxInt32: int := 0x7FFF_FFFF
  const MinInt64: int := -0x8000_0000_0000_0000
  const MaxInt64: int := 0x7FFF_FFFF_FFFF_FFFF

  /** A Java `int`. */
  type Int32 = x: int | MinInt32 <= x <= MaxInt32

  /** String concatenation renders a null reference as "null". */
  function Show(s: Option<string>): string
  {
    match s
    case None => "null"
    case Some(v) => v
  }

  /** `s != null && !s.isEmpty()` */
  predicate IsPresent(s: Option<string>)
  {
    s.Some? && |s.value| > 0
  }

  // ---------------------------------------------------------------------------
  // Character classes
  // ---------------------------------------------------------------------------

  predicate IsAsciiDigit(c: char) { '0' <= c <= '9' }

  predicate IsAsciiLetter(c: char) { 'a' <= c <= 'z' || 'A' <= c <= 'Z' }

  /** Regex `\w`: `[a-zA-Z_0-9]`. */
  predicate IsWordChar(c: char) { IsAsciiLetter(c) || IsAsciiDigit(c) || c == '_' }

  /** Regex `\p{L}`, restricted to the Latin blocks up to U+017F. */
  predicate IsLetter(c: char)
  {
    || IsAsciiLetter(c)
    || c == '\U{00AA}' || c == '\U{00B5}' || c == '\U{00BA}'
    || ('\U{00C0}' <= c <= '\U{00FF}' && c != '\U{00D7}' && c != '\U{00F7}')
    || ('\U{0100}' <= c <= '\U{017F}')
  }

  /** `Character.isWhitespace`: Unicode space separators other than the
      non-breaking ones, plus the ASCII controls TAB..CR and FS..US. */
  predicate IsWhitespace(c: char)
  {
    || ('\t' <= c <= '\r')
    || ('\U{001C}' <= c <= ' ')
    || c == '\U{1680}'
    || ('\U{2000}' <= c <= '\U{2006}')
    || ('\U{2008}' <= c <= '\U{200A}')
    || c == '\U{2028}' || c == '\U{2029}' || c == '\U{205F}' || c == '\U{3000}'
  }

  /** The characters the regex `.` refuses without DOTALL. */
  predicate IsLineTerminator(c: char)
  {
    c == '\n' || c == '\r' || c == '\U{0085}' || c == '\U{2028}' || c == '\U{2029}'
  }

  predicate AllDigits(s: string)
  {
    forall i :: 0 <= i < |s| ==> IsAsciiDigit(s[i])
  }

  /** `String.length()`: the number of UTF-16 code units, two for each
      character above U+FFFF, which Java stores as a surrogate pair. */
  function Utf16Length(s: string): (n: nat)
    ensures |s| <= n <= 2 * |s|
  {
    if |s| == 0 then 0
    else Utf16Length(s[..|s| - 1]) + (if s[|s| - 1] as int > 0xFFFF then 2 else 1)
  }

  /** Without characters above U+FFFF the UTF-16 length is the number of characters. */
  lemma {:induction false} Utf16LengthOfBmp(s: string)
    requires forall i :: 0 <= i < |s| ==> s[i] as int <= 0xFFFF
    ensures Utf16Length(s) == |s|
  {
    if |s| > 0 {
      Utf16LengthOfBmp(s[..|s| - 1]);
    }
  }

  /** A character above U+FFFF adds two code units. */
  lemma Utf16LengthAppend(s: string, c: char)
    ensures Utf16Length(s + [c]) == Utf16Length(s) + (if c as int > 0xFFFF then 2 else 1)
  {
    assert (s + [c])[..|s|] == s;
  }

  // ---------------------------------------------------------------------------
  // Case mapping (ASCII)
  // ---------------------------------------------------------------------------

  function ToUpperChar(c: char): char
  {
    if 'a' <= c <= 'z' then (c as int - 32) as char else c
  }

  function ToLowerChar(c: char): char
  {
    if 'A' <= c <= 'Z' then (c as int + 32) as char else c
  }

  function ToUpper(s: string): (r: string)
    ensures |r| == |s|
    ensures forall i :: 0 <= i < |s| ==> r[i] == ToUpperChar(s[i])
  {
    seq(|s|, i requires 0 <= i < |s| => ToUpperChar(s[i]))
  }

  function ToLower(s: string): (r: string)
    ensures |r| == |s|
    ensures forall i :: 0 <= i < |s| ==> r[i] == ToLowerChar(s[i])
  {
    seq(|s|, i requires 0 <= i < |s| => ToLowerChar(s[i]))
  }

  /** `String.replace(CharSequence, CharSequence)` for one-character arguments. */
  function ReplaceChar(s: string, from: char, to: char): (r: string)
    ensures |r| == |s|
    ensures forall i :: 0 <= i < |s| ==> r[i] == if s[i] == from then to else s[i]
  {
    seq(|s|, i requires 0 <= i < |s| => if s[i] == from then to else s[i])
  }

  /** One step of `String.equalsIgnoreCase` / `regionMatches(true, ...)`. */
  predicate CharEqualsIgnoreCase(a: char, b: char)
  {
    a == b || ToUpperChar(a) == ToUpperChar(b) || ToLowerChar(ToUpperChar(a)) == ToLowerChar(ToUpperChar(b))
  }

  /** `a.equalsIgnoreCase(b)` for a non-null `b`. */
  predicate EqualsIgnoreCase(a: string, b: string)
  {
    |a| == |b| && forall i :: 0 <= i < |a| ==> CharEqualsIgnoreCase(a[i], b[i])
  }

  /** With ASCII case mapping, comparing ignoring case is comparing lower-case forms. */
  lemma EqualsIgnoreCaseIsLowerEquality(a: string, b: string)
    ensures EqualsIgnoreCase(a, b) <==> ToLower(a) == ToLower(b)
  {
    if |a| == |b| {
      if ToLower(a) == ToLower(b) {
        forall i | 0 <= i < |a| ensures CharEqualsIgnoreCase(a[i], b[i]) {
          assert ToLower(a)[i] == ToLower(b)[i];
        }
      }
      if EqualsIgnoreCase(a, b) {
        forall i | 0 <= i < |a| ensures ToLower(a)[i] == ToLower(b)[i] {
          assert CharEqualsIgnoreCase(a[i], b[i]);
        }
      }
    }
  }

  // ---------------------------------------------------------------------------
  // trim / isBlank
  // ---------------------------------------------------------------------------

  /** Number of leading characters `String.trim` removes (code point <= U+0020). */
  function LeadingTrimmed(s: string): (n: nat)
    ensures n <= |s|
    ensures forall i :: 0 <= i < n ==> s[i] <= ' '
    ensures n < |s| ==> s[n] > ' '
  {
    if |s| == 0 || s[0] > ' ' then 0 else 1 + LeadingTrimmed(s[1..])
  }

  /** Number of trailing characters `String.trim` removes. */
  function TrailingTrimmed(s: string): (n: nat)
    ensures n <= |s|
    ensures n < |s| ==> s[|s| - n - 1] > ' '
    ensures |s| > 0 && s[0] > ' ' ==> n < |s|
  {
    if |s| == 0 || s[|s| - 1] > ' ' then 0 else 1 + TrailingTrimmed(s[..|s| - 1])
  }

  /** `String.trim`: drop leading and trailing characters at or below U+0020. */
  function Trim(s: string): (r: string)
    ensures LeadingTrimmed(s) + |r| <= |s|
    ensures r == s[LeadingTrimmed(s)..LeadingTrimmed(s) + |r|]
    ensures |r| > 0 ==> r[0] > ' ' && r[|r| - 1] > ' '
    ensures r == [] <==> forall i :: 0 <= i < |s| ==> s[i] <= ' '
  {
    var a := LeadingTrimmed(s);
    var rest := s[a..];
    var b := TrailingTrimmed(rest);
    var r := rest[..|rest| - b];
    assert r == s[a..a + |r|];
    if a < |s| then
      assert rest[0] > ' ';
      assert r[0] == rest[0] && r[|r| - 1] == rest[|rest| - b - 1];
      r
    else
      r
  }

  /** `s.trim().isEmpty()` */
  predicate TrimIsEmpty(s: string)
  {
    forall i :: 0 <= i < |s| ==> s[i] <= ' '
  }

  /** `String.isBlank()`: every character is `Character.isWhitespace`. */
  predicate IsBlank(s: string)
  {
    forall i :: 0 <= i < |s| ==> IsWhitespace(s[i])
  }

  /** A string with no blank at either end is its own trim. */
  lemma TrimOfNonBlankEnds(s: string)
    requires |s| > 0 && s[0] > ' ' && s[|s| - 1] > ' '
    ensures Trim(s) == s
  {
    assert LeadingTrimmed(s) == 0;
    assert s[0..] == s;
    assert TrailingTrimmed(s) == 0;
  }

  /** Trimming is idempotent. */
  lemma TrimIdempotent(s: string)
    ensures Trim(Trim(s)) == Trim(s)
  {
    var t := Trim(s);
    if |t| > 0 {
      assert LeadingTrimmed(t) == 0;
      assert t[..] == t;
    }
  }

  // ---------------------------------------------------------------------------
  // Searching and counting
  // ---------------------------------------------------------------------------

  /** `s.indexOf(c)`, or `None` for -1. */
  function IndexOf(s: string, c: char): (r: Option<nat>)
    ensures r.None? <==> c !in s
    ensures r.Some? ==> r.value < |s| && s[r.value] == c && c !in s[..r.value]
  {
    if |s| == 0 then None
    else if s[0] == c then Some(0)
    else match IndexOf(s[1..], c)
      case None => None
      case Some(k) => Some(k + 1)
  }

  /** `s.lastIndexOf(c)`, or `None` for -1. */
  function LastIndexOf(s: string, c: char): (r: Option<nat>)
    ensures r.None? <==> c !in s
    ensures r.Some? ==> r.value < |s| && s[r.value] == c && c !in s[r.value + 1..]
  {
    if |s| == 0 then None
    else if s[|s| - 1] == c then Some(|s| - 1)
    else
      var r := LastIndexOf(s[..|s| - 1], c);
      assert s == s[..|s| - 1] + [s[|s| - 1]];
      r
  }

  /** `s.startsWith(p)` */
  predicate StartsWith(s: string, p: string)
  {
    |p| <= |s| && s[..|p|] == p
  }

  /** `s.endsWith(p)` */
  predicate EndsWith(s: string, p: string)
  {
    |p| <= |s| && s[|s| - |p|..] == p
  }

  lemma StartsWithConcat(a: string, b: string, c: string)
    ensures StartsWith(a + (b + c), a + b)
  {
    assert (a + (b + c))[..|a + b|] == a + b;
  }

  /** How many times `c` occurs in `s`. */
  function CountChar(s: string, c: char): (n: nat)
    ensures n == 0 <==> c !in s
    ensures n <= |s|
  {
    if |s| == 0 then 0
    else CountChar(s[..|s| - 1], c) + (if s[|s| - 1] == c then 1 else 0)
  }

  lemma {:induction false} CountCharConcat(a: string, b: string, c: char)
    ensures CountChar(a + b, c) == CountChar(a, c) + CountChar(b, c)
  {
    if |b| > 0 {
      assert (a + b)[..|a + b| - 1] == a + b[..|b| - 1];
      CountCharConcat(a, b[..|b| - 1], c);
    } else {
      assert a + b == a;
    }
  }

  /** Text that ends in `c` and has no other `c` holds exactly one. */
  lemma CountCharLast(s: string, c: char)
    requires |s| > 0 && s[|s| - 1] == c && c !in s[..|s| - 1]
    ensures CountChar(s, c) == 1
  {
  }

  // ---------------------------------------------------------------------------
  // CASE_INSENSITIVE_ORDER
  // ---------------------------------------------------------------------------

  /** One character step of `String.CASE_INSENSITIVE_ORDER.compare`. */
  function CharCompareIgnoreCase(c1: char, c2: char): int
  {
    if c1 == c2 then 0
    else
      var u1 := ToUpperChar(c1);
      var u2 := ToUpperChar(c2);
      if u1 == u2 then 0
      else
        var l1 := ToLowerChar(u1);
        var l2 := ToLowerChar(u2);
        if l1 == l2 then 0 else l1 as int - l2 as int
  }

  /** `String.CASE_INSENSITIVE_ORDER.compare(a, b)` for non-null strings. */
  function CompareIgnoreCase(a: string, b: string): int
    decreases |a|
  {
    if |a| == 0 || |b| == 0 then |a| - |b|
    else
      var d := CharCompareIgnoreCase(a[0], b[0]);
      if d != 0 then d else CompareIgnoreCase(a[1..], b[1..])
  }

  /** Plain lexicographic comparison by code point (`String.compareTo`, which
      compares UTF-16 code units). */
  function LexCompare(a: string, b: string): int
    decreases |a|
  {
    if |a| == 0 || |b| == 0 then |a| - |b|
    else if a[0] != b[0] then a[0] as int - b[0] as int
    else LexCompare(a[1..], b[1..])
  }

  /** Case folding as CASE_INSENSITIVE_ORDER applies it. */
  function Fold(s: string): (r: string)
    ensures |r| == |s|
    ensures forall i :: 0 <= i < |s| ==> r[i] == ToLowerChar(ToUpperChar(s[i]))
  {
    seq(|s|, i requires 0 <= i < |s| => ToLowerChar(ToUpperChar(s[i])))
  }

  /** CASE_INSENSITIVE_ORDER is the lexicographic order of the folded strings. */
  lemma {:induction false} CompareIgnoreCaseIsFoldedLex(a: string, b: string)
    ensures CompareIgnoreCase(a, b) == LexCompare(Fold(a), Fold(b))
    decreases |a|
  {
    if |a| != 0 && |b| != 0 {
      assert Fold(a)[1..] == Fold(a[1..]);
      assert Fold(b)[1..] == Fold(b[1..]);
      CompareIgnoreCaseIsFoldedLex(a[1..], b[1..]);
    }
  }

  lemma {:induction false} LexCompareAntisymmetric(a: string, b: string)
    ensures LexCompare(a, b) == -LexCompare(b, a)
    decreases |a|
  {
    if |a| != 0 && |b| != 0 && a[0] == b[0] {
      LexCompareAntisymmetric(a[1..], b[1..]);
    }
  }

  lemma {:induction false} LexCompareZeroIsEquality(a: string, b: string)
    ensures LexCompare(a, b) == 0 <==> a == b
    decreases |a|
  {
    if |a| != 0 && |b| != 0 && a[0] == b[0] {
      LexCompareZeroIsEquality(a[1..], b[1..]);
      if a[1..] == b[1..] {
        assert a == [a[0]] + a[1..] && b == [b[0]] + b[1..];
      }
    }
  }

  lemma {:induction false} LexCompareTransitive(a: string, b: string, c: string)
    requires LexCompare(a, b) <= 0 && LexCompare(b, c) <= 0
    ensures LexCompare(a, c) <= 0
    decreases |a|
  {
    if |a| != 0 && |b| != 0 && |c| != 0 && a[0] == b[0] && b[0] == c[0] {
      LexCompareTransitive(a[1..], b[1..], c[1..]);
    }
  }

  /** CASE_INSENSITIVE_ORDER is a total preorder whose ties are the strings
      equal ignoring case. */
  lemma CompareIgnoreCaseIsTotalPreorder(a: string, b: string, c: string)
    ensures CompareIgnoreCase(a, b) == -CompareIgnoreCase(b, a)
    ensures CompareIgnoreCase(a, b) == 0 <==> Fold(a) == Fold(b)
    ensures CompareIgnoreCase(a, b) <= 0 && CompareIgnoreCase(b, c) <= 0 ==> CompareIgnoreCase(a, c) <= 0
  {
    CompareIgnoreCaseIsFoldedLex(a, b);
    CompareIgnoreCaseIsFoldedLex(b, a);
    CompareIgnoreCaseIsFoldedLex(b, c);
    CompareIgnoreCaseIsFoldedLex(a, c);
    LexCompareAntisymmetric(Fold(a), Fold(b));
    LexCompareZeroIsEquality(Fold(a), Fold(b));
    if CompareIgnoreCase(a, b) <= 0 && CompareIgnoreCase(b, c) <= 0 {
      LexCompareTransitive(Fold(a), Fold(b), Fold(c));
    }
  }

  // ---------------------------------------------------------------------------
  // Decimal numbers
  // ---------------------------------------------------------------------------

  function DigitValue(c: char): nat
    requires IsAsciiDigit(c)
  {
    c as int - '0' as int
  }

  function DigitChar(d: nat): (c: char)
    requires d < 10
    ensures IsAsciiDigit(c) && DigitValue(c) == d
  {
    (d + '0' as int) as char
  }

  /** The value of a string of ASCII digits, most significant first. */
  function DigitsValue(s: string): nat
    requires AllDigits(s)
  {
    if |s| == 0 then 0 else 10 * DigitsValue(s[..|s| - 1]) + DigitValue(s[|s| - 1])
  }

  /** `Integer.toString` of a non-negative value. */
  function NatToString(n: nat): (r: string)
    ensures |r| > 0 && AllDigits(r)
  {
    if n < 10 then [DigitChar(n)] else NatToString(n / 10) + [DigitChar(n % 10)]
  }

  /** `Integer.toString` / `Long.toString`. */
  function IntToString(n: int): string
  {
    if n < 0 then "-" + NatToString(-n) else NatToString(n)
  }

  /** `Integer.parseInt(s)` (bounds `MinInt32..MaxInt32`) and `Long.parseLong(s)`
      (bounds `MinInt64..MaxInt64`): an optional sign and at least one digit,
      no surrounding blanks, value in range; `None` is a NumberFormatException. */
  function ParseInteger(s: string, lo: int, hi: int): (r: Option<int>)
    ensures r.Some? ==> lo <= r.value <= hi
  {
    if |s| == 0 then None
    else
      var negative := s[0] == '-';
      var digits := if s[0] == '-' || s[0] == '+' then s[1..] else s;
      if |digits| == 0 || !AllDigits(digits) then None
      else
        var magnitude: int := DigitsValue(digits);
        var v := if negative then -magnitude else magnitude;
        if lo <= v <= hi then Some(v) else None
  }

  /** `Integer.parseInt` */
  function ParseInt(s: string): (r: Option<Int32>)
  {
    match ParseInteger(s, MinInt32, MaxInt32)
    case None => None
    case Some(v) => Some(v)
  }

  /** `Long.parseLong` */
  function ParseLong(s: string): Option<int>
  {
    ParseInteger(s, MinInt64, MaxInt64)
  }

  lemma {:induction false} DigitsValueOfNatToString(n: nat)
    ensures DigitsValue(NatToString(n)) == n
  {
    if n >= 10 {
      var s := NatToString(n / 10) + [DigitChar(n % 10)];
      assert s[..|s| - 1] == NatToString(n / 10);
      DigitsValueOfNatToString(n / 10);
    }
  }

  /** Printing a number and parsing it back gives the number (in range). */
  lemma ParseIntegerOfIntToString(n: int, lo: int, hi: int)
    requires lo <= n <= hi
    ensures ParseInteger(IntToString(n), lo, hi) == Some(n)
  {
    if n < 0 {
      var s := "-" + NatToString(-n);
      assert s[1..] == NatToString(-n);
      DigitsValueOfNatToString(-n);
    } else {
      DigitsValueOfNatToString(n);
    }
  }
}
