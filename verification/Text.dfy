/** Byte strings as the C locale sees them, and decimal numerals. */
module Text {

  datatype Option<T> = Some(value: T) | None

  /** `n` times `x`. */
  function Repeat<T>(x: T, n: nat): (s: seq<T>)
    ensures |s| == n && forall k | 0 <= k < n :: s[k] == x
  {
    if n == 0 then [] else Repeat(x, n - 1) + [x]
  }

  // ----- character classes

  predicate IsSpace(c: char) { c == ' ' || '\t' <= c <= '\r' }

  predicate IsDigit(c: char) { '0' <= c <= '9' }

  predicate IsAlpha(c: char) { 'a' <= c <= 'z' || 'A' <= c <= 'Z' }

  predicate IsWord(c: char) { IsAlpha(c) || IsDigit(c) || c == '_' }

  function ToUpper(c: char): char { if 'a' <= c <= 'z' then c - 'a' + 'A' else c }

  function ToLower(c: char): char { if 'A' <= c <= 'Z' then c - 'A' + 'a' else c }

  function Upper(s: string): (u: string)
    ensures |u| == |s|
  {
    if s == [] then [] else [ToUpper(s[0])] + Upper(s[1..])
  }

  // ----- scanning

  function OtherThan(q: char): char -> bool { c => c != q }

  predicate All(s: string, p: char -> bool) { forall k | 0 <= k < |s| :: p(s[k]) }

  /** The first position from `i` on whose character does not satisfy `p`. */
  function Span(s: string, i: nat, p: char -> bool): (j: nat)
    requires i <= |s|
    ensures i <= j <= |s| && (j < |s| ==> !p(s[j]))
    ensures forall k | i <= k < j :: p(s[k])
    decreases |s| - i
  {
    if i < |s| && p(s[i]) then Span(s, i + 1, p) else i
  }

  /** The only position with the properties of `Span`. */
  lemma {:induction false} SpanIs(s: string, i: nat, j: nat, p: char -> bool)
    requires i <= j <= |s| && (j < |s| ==> !p(s[j])) && forall k | i <= k < j :: p(s[k])
    ensures Span(s, i, p) == j
    decreases j - i
  {
    if i < j {
      SpanIs(s, i + 1, j, p);
    }
  }

  // ----- decimal numerals

  function Digit(d: nat): (c: char)
    requires d < 10
    ensures IsDigit(c)
  {
    '0' + d as char
  }

  function DigitValue(c: char): nat
    requires IsDigit(c)
  {
    (c - '0') as nat
  }

  /** How a non-negative integer is printed. */
  function Decimal(n: nat): (s: string)
    ensures s != [] && All(s, IsDigit)
  {
    if n < 10 then [Digit(n)] else Decimal(n / 10) + [Digit(n % 10)]
  }

  /** How a signed integer is printed. */
  function Signed(i: int): string { if i < 0 then "-" + Decimal(-i) else Decimal(i) }

  /** The number that a string of digits denotes. */
  function Numeral(s: string): nat
    requires All(s, IsDigit)
  {
    if s == [] then 0 else 10 * Numeral(s[..|s| - 1]) + DigitValue(s[|s| - 1])
  }

  function Power10(n: nat): (p: nat)
    ensures p > 0
  {
    if n == 0 then 1 else 10 * Power10(n - 1)
  }

  /** An integer as the C library scans it: white space, a sign, digits. */
  datatype Scanned = Scanned(negative: bool, digits: string)

  function ScanInteger(s: string): (r: Scanned)
    ensures All(r.digits, IsDigit)
  {
    var i := Span(s, 0, IsSpace);
    var signed := i < |s| && (s[i] == '+' || s[i] == '-');
    var start := if signed then i + 1 else i;
    Scanned(signed && s[i] == '-', s[start..Span(s, start, IsDigit)])
  }

  lemma ScanMeans(blanks: string, sign: string, digits: string, rest: string)
    requires All(blanks, IsSpace) && (sign == "" || sign == "+" || sign == "-") && All(digits, IsDigit)
    requires rest == "" || !IsDigit(rest[0])
    requires digits != "" || sign != "" || rest == "" || (!IsSpace(rest[0]) && rest[0] != '+' && rest[0] != '-')
    ensures ScanInteger(blanks + (sign + (digits + rest))) == Scanned(sign == "-", digits)
  {
    var s := blanks + (sign + (digits + rest));
    var i, j := |blanks|, |blanks| + |sign|;
    var k := j + |digits|;
    ScanParts(s, blanks, sign, digits, rest);
    SpanIs(s, 0, i, IsSpace);
    SpanIs(s, j, k, IsDigit);
    hide Span, All, IsDigit;
  }

  lemma ScanParts(s: string, blanks: string, sign: string, digits: string, rest: string)
    requires s == blanks + (sign + (digits + rest)) && |sign| <= 1
    ensures var j := |blanks| + |sign|;
      && |s| == j + |digits| + |rest| && s[j..j + |digits|] == digits
      && (forall m | 0 <= m < |blanks| :: s[m] == blanks[m])
      && (sign != "" ==> s[|blanks|] == sign[0])
      && (forall m | j <= m < j + |digits| :: s[m] == digits[m - j])
      && (rest != "" ==> s[j + |digits|] == rest[0])
  {
    var j := |blanks| + |sign|;
    assert s[j..] == digits + rest;
    assert s[j..][..|digits|] == digits;
  }

  lemma {:induction false} NumeralOfDecimal(n: nat)
    ensures Numeral(Decimal(n)) == n
  {
    if n >= 10 {
      NumeralOfDecimal(n / 10);
      var s := Decimal(n);
      assert s[..|s| - 1] == Decimal(n / 10) && s[|s| - 1] == Digit(n % 10);
    }
  }

  lemma {:induction false} NumeralSplit(a: string, b: string)
    requires All(a, IsDigit) && All(b, IsDigit)
    ensures All(a + b, IsDigit) && Numeral(a + b) == Numeral(a) * Power10(|b|) + Numeral(b)
    ensures Numeral(b) < Power10(|b|)
  {
    if b != "" {
      assert (a + b)[..|a + b| - 1] == a + b[..|b| - 1];
      NumeralSplit(a, b[..|b| - 1]);
      Distribute(Numeral(a), Power10(|b| - 1));
    } else {
      assert a + b == a;
    }
  }

  lemma Distribute(a: nat, p: nat)
    ensures 10 * (a * p) == a * (10 * p)
  {}

  // ----- the C locale, in ASCII codes

  /** The character classes of the C locale. */
  lemma CharacterClasses(c: char)
    ensures IsSpace(c) <==> c as int in {9, 10, 11, 12, 13, 32}
    ensures IsDigit(c) <==> 48 <= c as int <= 57
    ensures IsAlpha(c) <==> 65 <= c as int <= 90 || 97 <= c as int <= 122
    ensures IsWord(c) <==> IsAlpha(c) || IsDigit(c) || c as int == 95
    ensures IsDigit(c) ==> DigitValue(c) == c as int - 48
  {}

  /** The same letter in either case, or the same character. */
  predicate SameLetter(c: char, d: char) {
    || c == d
    || ('A' <= c <= 'Z' && d as int == c as int + 32)
    || ('A' <= d <= 'Z' && c as int == d as int + 32)
  }

  predicate SameLetters(a: string, b: string) { |a| == |b| && forall k | 0 <= k < |a| :: SameLetter(a[k], b[k]) }

  /** Folding to one case identifies just the two cases of a letter. */
  lemma FoldsCase(c: char, d: char)
    ensures ToUpper(c) == ToUpper(d) <==> SameLetter(c, d)
    ensures ToLower(c) == ToLower(d) <==> SameLetter(c, d)
    ensures !('a' <= ToUpper(c) <= 'z') && !('A' <= ToLower(c) <= 'Z')
    ensures SameLetter(c, ToUpper(c)) && SameLetter(c, ToLower(c))
  {}

  lemma {:induction false} UpperAt(s: string, k: nat)
    requires k < |s|
    ensures Upper(s)[k] == ToUpper(s[k])
  {
    if k > 0 {
      UpperAt(s[1..], k - 1);
    }
  }

  lemma UpperFoldsCase(a: string, b: string)
    ensures Upper(a) == Upper(b) <==> SameLetters(a, b)
  {
    if |a| == |b| {
      forall k | 0 <= k < |a|
        ensures Upper(a)[k] == Upper(b)[k] <==> SameLetter(a[k], b[k])
      {
        UpperAt(a, k);
        UpperAt(b, k);
        FoldsCase(a[k], b[k]);
      }
    }
  }
}
