/** Dates and times as text: `YYYYMMDD`, `YYYYMMDDHHMMSS`. */
module DateText {
  import opened Text
  import opened KeyOrder
  import opened Calendar

  // ----- printing with leading zeros, reading with `stoi`

  /** `%0*d` */
  function ZeroPadded(n: int, width: nat): string {
    var sign := if n < 0 then "-" else "";
    var digits := Decimal(if n < 0 then -n else n);
    sign + Repeat('0', if |sign| + |digits| < width then width - |sign| - |digits| else 0) + digits
  }

  /** `std::stoi` on a short string; `None` where it throws for want of a digit. */
  function Stoi(s: string): Option<int> {
    var r := ScanInteger(s);
    if r.digits == "" then None else Some(if r.negative then 0 - Numeral(r.digits) else Numeral(r.digits))
  }

  lemma {:induction false} DecimalLength(n: nat, width: nat)
    requires n < Power10(width) && width > 0
    ensures |Decimal(n)| <= width
  {
    if n >= 10 {
      DecimalLength(n / 10, width - 1);
    }
  }

  lemma {:induction false} NumeralOfZeros(z: string, s: string)
    requires All(z, IsDigit) && All(s, IsDigit) && forall k | 0 <= k < |z| :: z[k] == '0'
    ensures All(z + s, IsDigit) && Numeral(z + s) == Numeral(s)
  {
    if s != "" {
      assert (z + s)[..|z + s| - 1] == z + s[..|s| - 1];
      NumeralOfZeros(z, s[..|s| - 1]);
    } else if z != "" {
      assert z + s == z;
      NumeralOfZeros(z[..|z| - 1], "");
      assert z[..|z| - 1] + "" == z[..|z| - 1];
    }
  }

  lemma PaddedShape(n: nat, width: nat)
    requires n < Power10(width) && width > 0
    ensures var s := ZeroPadded(n, width); |s| == width && All(s, IsDigit) && Numeral(s) == n
  {
    DecimalLength(n, width);
    var d := Decimal(n);
    var z := Repeat('0', width - |d|);
    assert ZeroPadded(n, width) == "" + z + d == z + d;
    NumeralOfZeros(z, d);
    NumeralOfDecimal(n);
  }

  lemma StoiOfDigits(s: string)
    requires s != "" && All(s, IsDigit)
    ensures Stoi(s) == Some(Numeral(s))
  {
    ScanMeans("", "", s, "");
    assert "" + ("" + (s + "")) == s;
  }

  /** `stoi` in general: white space, a sign, digits, and anything behind them. */
  lemma StoiMeans(blanks: string, sign: string, digits: string, rest: string)
    requires All(blanks, IsSpace) && (sign == "" || sign == "+" || sign == "-") && All(digits, IsDigit)
    requires rest == "" || !IsDigit(rest[0])
    requires digits != "" || sign != "" || rest == "" || (!IsSpace(rest[0]) && rest[0] != '+' && rest[0] != '-')
    ensures Stoi(blanks + (sign + (digits + rest))) ==
      if digits == "" then None else Some(if sign == "-" then 0 - Numeral(digits) else Numeral(digits))
  {
    hide ScanInteger, Numeral;
    ScanMeans(blanks, sign, digits, rest);
  }

  lemma SignedDigits(sign: string, digits: string)
    requires (sign == "" || sign == "-") && digits != "" && All(digits, IsDigit)
    ensures Stoi(sign + digits) == Some(if sign == "-" then 0 - Numeral(digits) else Numeral(digits))
  {
    hide Stoi, Numeral;
    StoiMeans("", sign, digits, "");
    assert "" + (sign + (digits + "")) == sign + digits;
  }

  /** A printed integer reads back, whatever its sign and its leading zeros, and is as wide as asked. */
  lemma PaddedBack(n: int, width: nat)
    ensures Stoi(ZeroPadded(n, width)) == Some(n) && |ZeroPadded(n, width)| >= width
    ensures Stoi(Signed(n)) == Some(n) && Signed(n) != "" && (n < 0 <==> Signed(n)[0] == '-')
  {
    hide Stoi, Numeral, Decimal;
    var sign, m := if n < 0 then "-" else "", if n < 0 then -n else n;
    var d := Decimal(m);
    var z := Repeat('0', if |sign| + |d| < width then width - |sign| - |d| else 0);
    NumeralOfDecimal(m);
    NumeralOfZeros(z, d);
    SignedDigits(sign, z + d);
    SignedDigits(sign, d);
    assert ZeroPadded(n, width) == sign + z + d == sign + (z + d);
    assert Signed(n) == sign + d;
    assert IsDigit(d[0]);
  }

  // ----- the order of digit strings

  /** Digit strings of one length are ordered as their numbers. */
  lemma {:induction false} DigitOrder(a: string, b: string)
    requires |a| == |b| && All(a, IsDigit) && All(b, IsDigit)
    ensures Below(a, b) <==> Numeral(a) < Numeral(b)
  {
    if a != "" {
      assert a == [a[0]] + a[1..] && b == [b[0]] + b[1..];
      NumeralSplit([a[0]], a[1..]);
      NumeralSplit([b[0]], b[1..]);
      DigitOrder(a[1..], b[1..]);
      LeadingDigit(DigitValue(a[0]), DigitValue(b[0]), Power10(|a| - 1), Numeral(a[1..]), Numeral(b[1..]));
      OneDigit(a[0]);
      OneDigit(b[0]);
    }
  }

  lemma OneDigit(c: char)
    requires IsDigit(c)
    ensures All([c], IsDigit) && Numeral([c]) == DigitValue(c)
  {
    assert [c][..0] == "";
  }

  lemma LeadingDigit(d: nat, e: nat, p: nat, x: nat, y: nat)
    requires x < p && y < p
    ensures d < e ==> d * p + x < e * p + y
    ensures e < d ==> e * p + y < d * p + x
    ensures d == e ==> (d * p + x < e * p + y <==> x < y)
  {
    if d < e {
      assert (d + 1) * p <= e * p;
    } else if e < d {
      assert (e + 1) * p <= d * p;
    }
  }

  // ----- dates

  /** A date the text format has room for. */
  predicate Printable(t: Date) { ValidDate(t) && 0 <= t.year <= 9999 }

  /** `%04d%02d%02d` */
  function DateString(t: Date): string {
    ZeroPadded(t.year, 4) + ZeroPadded(t.month, 2) + ZeroPadded(t.day, 2)
  }

  /** The date that a text stands for, as `stoi` reads its parts. */
  function ReadDate(s: string): (r: Option<Date>)
    requires |s| >= 8
  {
    var y, m, d := Stoi(s[..4]), Stoi(s[4..6]), Stoi(s[6..8]);
    if y.None? || m.None? || d.None? then None else Some(Date(y.value, m.value, d.value))
  }

  lemma DateShape(t: Date)
    requires Printable(t)
    ensures var s := DateString(t);
      && |s| == 8 && All(s, IsDigit) && s[..4] == ZeroPadded(t.year, 4) && s[4..6] == ZeroPadded(t.month, 2)
      && s[6..8] == ZeroPadded(t.day, 2) && Numeral(s) == t.year * 10000 + t.month * 100 + t.day
  {
    hide ZeroPadded, Numeral;
    assert Power10(4) == 10000 && Power10(2) == 100;
    PaddedShape(t.year, 4);
    PaddedShape(t.month, 2);
    PaddedShape(t.day, 2);
    NumeralSplit(ZeroPadded(t.year, 4), ZeroPadded(t.month, 2));
    NumeralSplit(ZeroPadded(t.year, 4) + ZeroPadded(t.month, 2), ZeroPadded(t.day, 2));
  }

  lemma DateBack(t: Date, rest: string)
    requires Printable(t)
    ensures |DateString(t)| == 8 && ReadDate(DateString(t) + rest) == Some(t)
  {
    hide ZeroPadded, Numeral, Stoi;
    var s := DateString(t);
    DateShape(t);
    assert (s + rest)[..4] == s[..4] && (s + rest)[4..6] == s[4..6] && (s + rest)[6..8] == s[6..8];
    assert Power10(4) == 10000 && Power10(2) == 100;
    PaddedShape(t.year, 4);
    PaddedShape(t.month, 2);
    PaddedShape(t.day, 2);
    StoiOfDigits(s[..4]);
    StoiOfDigits(s[4..6]);
    StoiOfDigits(s[6..8]);
  }

  lemma NotEarly(t: Date)
    requires Printable(t)
    ensures ValidDate(t) && MarchYear(t) >= 0
  {}

  lemma NumberOrder(s: Date, t: Date)
    requires Printable(s) && Printable(t)
    ensures Before(s, t) <==>
      s.year * 10000 + s.month * 100 + s.day < t.year * 10000 + t.month * 100 + t.day
  {
    assert s.day <= 31 && t.day <= 31;
  }

  /** Texts of dates sort as the dates, and as their day numbers. */
  lemma DateStringOrder(s: Date, t: Date)
    requires Printable(s) && Printable(t)
    ensures Below(DateString(s), DateString(t)) <==> Before(s, t)
    ensures Below(DateString(s), DateString(t)) <==> YmdToJdn(s.year, s.month, s.day) < YmdToJdn(t.year, t.month, t.day)
  {
    hide DateString, Below, Numeral, Before, ValidDate, YmdToJdn, DayNumber, MarchYear;
    DateShape(s);
    DateShape(t);
    NumberOrder(s, t);
    NotEarly(s);
    NotEarly(t);
    DigitOrder(DateString(s), DateString(t));
    DayNumberOrder(s, t);
    PrintableInRange(s);
    PrintableInRange(t);
  }

  /** A printable date has a day number between those of 1 January 0000 and 31 December 9999. */
  lemma PrintableInRange(t: Date)
    requires Printable(t)
    ensures 1721060 <= YmdToJdn(t.year, t.month, t.day) == DayNumber(t.year, t.month, t.day) <= 5373484
  {
    var first, last := Date(0, 1, 1), Date(9999, 12, 31);
    assert DayNumber(0, 1, 1) == 1721060 && DayNumber(9999, 12, 31) == 5373484;
    DayNumberOrder(first, t);
    DayNumberOrder(t, first);
    DayNumberOrder(t, last);
    DayNumberOrder(last, t);
    InRange(t);
  }

  /** The stored day numbers of the years 0000 to 9999 sort as the texts they decode to. */
  lemma StoredDateOrder(a: nat, b: nat)
    requires 1721060 <= a <= 5373484 && 1721060 <= b <= 5373484
    ensures Printable(JdnToYmd(a)) && Printable(JdnToYmd(b))
    ensures Below(DateString(JdnToYmd(a)), DateString(JdnToYmd(b))) <==> a < b
  {
    hide DateString, Below, JdnToYmd, YmdToJdn, DayNumber, Before, ValidDate;
    StoredIsPrintable(a);
    StoredIsPrintable(b);
    YmdUndoesJdn(a);
    YmdUndoesJdn(b);
    DateStringOrder(JdnToYmd(a), JdnToYmd(b));
  }

  lemma StoredIsPrintable(jdn: nat)
    requires 1721060 <= jdn <= 5373484
    ensures Printable(JdnToYmd(jdn))
  {
    hide JdnToYmd, DayNumber;
    var t, first, last := JdnToYmd(jdn), Date(0, 1, 1), Date(9999, 12, 31);
    JdnRoundTrip(jdn);
    PrintableInRange(first);
    PrintableInRange(last);
    assert DayNumber(0, 1, 1) <= 1721060 && DayNumber(9999, 12, 31) >= 5373484 by { Ends(); }
    DayNumberOrder(t, first);
    DayNumberOrder(last, t);
  }

  lemma Ends()
    ensures DayNumber(0, 1, 1) == 1721060 && DayNumber(9999, 12, 31) == 5373484
  {}

  // ----- times of day

  const DAY_MS: nat := 86400000

  /** `%02u%02u%02u` of a number of milliseconds */
  function TimeString(ms: nat): string {
    ZeroPadded(ms / 3600000, 2) + (ZeroPadded(ms % 3600000 / 60000, 2) + ZeroPadded(ms % 60000 / 1000, 2))
  }

  /** Milliseconds from `HHMMSS`. */
  function ReadTime(s: string): Option<int>
    requires |s| >= 6
  {
    var h, m, sec := Stoi(s[..2]), Stoi(s[2..4]), Stoi(s[4..6]);
    if h.None? || m.None? || sec.None? then None
    else Some(h.value * 3600000 + m.value * 60000 + sec.value * 1000)
  }

  lemma TimeBack(ms: nat)
    requires ms < DAY_MS && ms % 1000 == 0
    ensures |TimeString(ms)| == 6 && All(TimeString(ms), IsDigit) && ReadTime(TimeString(ms)) == Some(ms)
  {
    hide ZeroPadded, Numeral, Stoi;
    var h, m, sec := ms / 3600000, ms % 3600000 / 60000, ms % 60000 / 1000;
    assert Power10(2) == 100;
    PaddedShape(h, 2);
    PaddedShape(m, 2);
    PaddedShape(sec, 2);
    var a, b, c := ZeroPadded(h, 2), ZeroPadded(m, 2), ZeroPadded(sec, 2);
    var s := a + (b + c);
    assert s[..2] == a && s[2..4] == b && s[4..6] == c;
    StoiOfDigits(a);
    StoiOfDigits(b);
    StoiOfDigits(c);
    SplitTime(ms);
  }

  lemma SplitTime(ms: nat)
    requires ms % 1000 == 0
    ensures ms / 3600000 * 3600000 + ms % 3600000 / 60000 * 60000 + ms % 60000 / 1000 * 1000 == ms
  {
    var q := ms / 3600000;
    var r := ms % 3600000;
    assert ms % 60000 == r % 60000 by {
      assert ms == 60000 * (60 * q) + r;
    }
    assert r % 60000 % 1000 == 0;
  }
}
