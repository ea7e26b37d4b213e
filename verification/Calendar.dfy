/** Julian Day Numbers and the proleptic Gregorian calendar.

    `JdnToYmd` and `YmdToJdn` are the two day-number conversions of the record layer.  They are
    related here to a calendar that knows nothing about day numbers: month lengths, the leap-year
    rule and the successor of a date. */
module Calendar {
  import Dbf

  datatype Date = Date(year: int, month: int, day: int)

  // ----- the calendar itself

  predicate IsLeap(y: int) {
    y % 4 == 0 && (y % 100 != 0 || y % 400 == 0)
  }

  function DaysInMonth(y: int, m: int): int {
    if m == 2 then (if IsLeap(y) then 29 else 28)
    else if m == 4 || m == 6 || m == 9 || m == 11 then 30
    else 31
  }

  predicate ValidDate(t: Date) {
    1 <= t.month <= 12 && 1 <= t.day <= DaysInMonth(t.year, t.month)
  }

  /** The calendar day after `t`. */
  function NextDay(t: Date): Date {
    if t.day < DaysInMonth(t.year, t.month) then t.(day := t.day + 1)
    else if t.month < 12 then Date(t.year, t.month + 1, 1)
    else Date(t.year + 1, 1, 1)
  }

  predicate Before(s: Date, t: Date) {
    s.year < t.year ||
    (s.year == t.year && (s.month < t.month || (s.month == t.month && s.day < t.day)))
  }

  // ----- the conversions of the record layer

  /** C++ integer division: truncates toward zero. */
  function TruncDiv(a: int, b: int): int
    requires b > 0
  {
    if a >= 0 then a / b else -((-a) / b)
  }

  /** Fliegel-Van Flandern, day number to date. */
  function JdnToYmd(jdn: nat): Date {
    var l0 := jdn + 68569;
    var n := TruncDiv(4 * l0, 146097);
    var l1 := l0 - TruncDiv(146097 * n + 3, 4);
    var i := TruncDiv(4000 * (l1 + 1), 1461001);
    var l2 := l1 - TruncDiv(1461 * i, 4) + 31;
    var j := TruncDiv(80 * l2, 2447);
    var d := l2 - TruncDiv(2447 * j, 80);
    var l3 := TruncDiv(j, 11);
    Date(100 * (n - 49) + i + l3, j + 2 - 12 * l3, d)
  }

  /** The 64-bit sum that `YmdToJdn` narrows to 32 bits. */
  function DayNumber(y: int, m: int, d: int): int {
    var a := TruncDiv(14 - m, 12);
    var yy := y + 4800 - a;
    var mm := m + 12 * a - 3;
    d + TruncDiv(153 * mm + 2, 5) + 365 * yy + TruncDiv(yy, 4) - TruncDiv(yy, 100) + TruncDiv(yy, 400) - 32045
  }

  function YmdToJdn(y: int, m: int, d: int): nat {
    DayNumber(y, m, d) % Dbf.UINT32
  }

  // ----- the three stages of the conversion from a day number

  /** Splits a shifted day number into century and day of the century. */
  lemma CenturyStage(l0: int, n: int, c: int)
    requires 0 <= l0 && n == 4 * l0 / 146097 && c == (146097 * n + 3) / 4
    ensures 0 <= l0 - c <= 36524
    ensures l0 - c == 36524 ==> n % 4 == 0
    ensures c == 36524 * n + (n + 3) / 4
  {
  }

  /** Splits a day of the century into year of the century and day of the year (from 1 March). */
  lemma YearStage(l1: int, i: int, f: int)
    requires 0 <= l1 <= 36524 && i == 4000 * (l1 + 1) / 1461001 && f == 1461 * i / 4
    ensures 0 <= i <= 99 && 0 <= l1 - f <= 365
    ensures l1 - f == 365 ==> i % 4 == 3 && (i == 99 ==> l1 == 36524)
    ensures f == 365 * i + i / 4
  {
  }

  /** Splits a day of the year into month and day of the month. */
  lemma MonthStage(r: int, j: int, d: int)
    requires 0 <= r <= 365 && j == 80 * (r + 31) / 2447 && d == r + 31 - 2447 * j / 80
    ensures 1 <= j <= 12 && d == r + 1 - (153 * (j - 1) + 2) / 5
    ensures 1 <= d
    ensures d <= 31
    ensures j in {2, 4, 7, 9} ==> d <= 30
    ensures j == 12 ==> d <= 29 && (d == 29 ==> r == 365)
  {
  }

  // ----- the three parts of a day number: years and months both counted from 1 March

  function YearBase(yy: int): int { 365 * yy + yy / 4 - yy / 100 + yy / 400 }

  function MonthBase(mm: int): int { (153 * mm + 2) / 5 }

  function MarchYear(t: Date): int { t.year + 4800 - (if t.month <= 2 then 1 else 0) }

  function MarchMonth(t: Date): int { if t.month <= 2 then t.month + 9 else t.month - 3 }

  lemma DayNumberParts(t: Date)
    requires ValidDate(t) && MarchYear(t) >= 0
    ensures DayNumber(t.year, t.month, t.day)
         == YearBase(MarchYear(t)) + MonthBase(MarchMonth(t)) + t.day - 32045
  {
    var a := TruncDiv(14 - t.month, 12);
    assert a == if t.month <= 2 then 1 else 0;
    assert t.year + 4800 - a == MarchYear(t);
  }

  lemma Div4(q: int)
    ensures q / 4 == (q - 1) / 4 + (if q % 4 == 0 then 1 else 0)
  {}

  lemma Div100(q: int)
    ensures q / 100 == (q - 1) / 100 + (if q % 100 == 0 then 1 else 0)
  {}

  lemma Div400(q: int)
    ensures q / 400 == (q - 1) / 400 + (if q % 400 == 0 then 1 else 0)
  {}

  lemma Residue4(y: int)
    ensures (y + 4800) % 4 == y % 4
  {}

  lemma Residue100(y: int)
    ensures (y + 4800) % 100 == y % 100
    ensures y % 100 == 0 ==> y % 4 == 0
  {}

  lemma Residue400(y: int)
    ensures (y + 4800) % 400 == y % 400
    ensures y % 400 == 0 ==> y % 100 == 0
  {}

  lemma Residues(y: int)
    ensures (y + 4800) % 4 == y % 4 && (y + 4800) % 100 == y % 100 && (y + 4800) % 400 == y % 400
    ensures y % 400 == 0 ==> y % 100 == 0
    ensures y % 100 == 0 ==> y % 4 == 0
  {
    Residue4(y);
    Residue100(y);
    Residue400(y);
  }

  /** A March year has 366 days exactly when the February that ends it is a leap one. */
  lemma YearLength(y: int)
    ensures YearBase(y + 4800) == YearBase(y + 4799) + 365 + (if IsLeap(y) then 1 else 0)
  {
    var q := y + 4800;
    Div4(q);
    Div100(q);
    Div400(q);
    Residues(y);
  }

  lemma YearBaseGrows(u: int, v: int)
    requires u <= v
    ensures YearBase(u) <= YearBase(v)
  {}

  /** Dates before 1 March -4800 have negative day numbers: they have no 32-bit representation. */
  lemma EarlyDatesAreNegative(t: Date)
    requires ValidDate(t) && MarchYear(t) < 0
    ensures DayNumber(t.year, t.month, t.day) < 0
  {
    var a := TruncDiv(14 - t.month, 12);
    assert a == if t.month <= 2 then 1 else 0;
    var k := -MarchYear(t);
    assert TruncDiv(-k, 4) == -(k / 4) && TruncDiv(-k, 100) == -(k / 100) && TruncDiv(-k, 400) == -(k / 400);
    assert k / 4 - k / 100 + k / 400 >= 0;
  }

  // ----- main results

  /** The March year and day of the year recovered by `JdnToYmd` make up the day number again. */
  lemma CenturyBase(n: int, i: int, yy: int)
    requires n >= 1 && 0 <= i <= 99 && yy == 100 * (n - 1) + i
    ensures YearBase(yy) == 36524 * (n - 1) + (n - 1) / 4 + 365 * i + i / 4
  {
    assert yy / 4 == 25 * (n - 1) + i / 4;
    assert yy / 100 == n - 1;
    assert yy / 400 == (n - 1) / 4;
  }

  lemma CenturyLeap(n: int, i: int, q: int)
    requires n >= 1 && 0 <= i <= 99 && q == 100 * (n - 1) + i + 1
    requires i % 4 == 3 && (i == 99 ==> n % 4 == 0)
    ensures IsLeap(q)
  {
    assert q == 4 * (25 * (n - 1) + i / 4 + 1);
    if i == 99 {
      assert q == 400 * (n / 4);
    } else {
      assert q % 100 == i + 1;
    }
  }

  /** What the stages of `JdnToYmd` compute, in the terms of a calendar that starts on 1 March. */
  ghost predicate Stages(jdn: nat, t: Date, n: int, i: int, r: int, j: int) {
    && n >= 1 && 0 <= i <= 99 && 0 <= r <= 365 && 1 <= j <= 12
    && jdn + 68569 == 36524 * n + (n + 3) / 4 + 365 * i + i / 4 + r
    && t.year == 100 * (n - 49) + i + (if j >= 11 then 1 else 0)
    && t.month == (if j >= 11 then j - 10 else j + 2)
    && t.day == r + 1 - MonthBase(j - 1) && 1 <= t.day <= 31
    && (j in {2, 4, 7, 9} ==> t.day <= 30)
    && (j == 12 ==> t.day <= 29 && (t.day == 29 ==> i % 4 == 3 && (i == 99 ==> n % 4 == 0)))
  }

  lemma JdnStages(jdn: nat) returns (n: int, i: int, r: int, j: int)
    ensures Stages(jdn, JdnToYmd(jdn), n, i, r, j)
  {
    hide JdnToYmd, Stages;
    var l0 := jdn + 68569;
    n := 4 * l0 / 146097;
    var c := (146097 * n + 3) / 4;
    CenturyStage(l0, n, c);
    var l1 := l0 - c;
    i := 4000 * (l1 + 1) / 1461001;
    var f := 1461 * i / 4;
    YearStage(l1, i, f);
    r := l1 - f;
    j := 80 * (r + 31) / 2447;
    var d := r + 31 - 2447 * j / 80;
    MonthStage(r, j, d);
    Unshifted(jdn, l0, n, c, l1, i, f, r, j, d);
    JoinStages(jdn, JdnToYmd(jdn), n, c, l1, i, f, r, j, d);
  }

  lemma JoinStages(jdn: nat, t: Date, n: int, c: int, l1: int, i: int, f: int, r: int, j: int, d: int)
    requires n >= 1 && l1 == jdn + 68569 - c && c == 36524 * n + (n + 3) / 4 && (l1 == 36524 ==> n % 4 == 0)
    requires 0 <= i <= 99 && r == l1 - f && 0 <= r <= 365 && f == 365 * i + i / 4
    requires r == 365 ==> i % 4 == 3 && (i == 99 ==> l1 == 36524)
    requires 1 <= j <= 12 && d == r + 1 - (153 * (j - 1) + 2) / 5 && 1 <= d <= 31
    requires j in {2, 4, 7, 9} ==> d <= 30
    requires j == 12 ==> d <= 29 && (d == 29 ==> r == 365)
    requires t == Date(100 * (n - 49) + i + j / 11, j + 2 - 12 * (j / 11), d)
    ensures Stages(jdn, t, n, i, r, j)
  {
    assert j / 11 == if j >= 11 then 1 else 0;
  }

  /** On the values that occur, C++ division is the mathematical one. */
  lemma Unshifted(jdn: nat, l0: int, n: int, c: int, l1: int, i: int, f: int, r: int, j: int, d: int)
    requires l0 == jdn + 68569 && n == 4 * l0 / 146097 && c == (146097 * n + 3) / 4 && l1 == l0 - c
    requires i == 4000 * (l1 + 1) / 1461001 && f == 1461 * i / 4 && r == l1 - f
    requires j == 80 * (r + 31) / 2447 && d == r + 31 - 2447 * j / 80
    requires n >= 0 && l1 >= 0 && i >= 0 && r >= 0 && j >= 0
    ensures JdnToYmd(jdn) == Date(100 * (n - 49) + i + j / 11, j + 2 - 12 * (j / 11), d)
  {
    hide TruncDiv;
    TruncIsDiv(4 * l0, 146097);
    TruncIsDiv(146097 * n + 3, 4);
    TruncIsDiv(4000 * (l1 + 1), 1461001);
    TruncIsDiv(1461 * i, 4);
    TruncIsDiv(80 * (r + 31), 2447);
    TruncIsDiv(2447 * j, 80);
    TruncIsDiv(j, 11);
  }

  lemma TruncIsDiv(a: int, b: int)
    requires a >= 0 && b > 0
    ensures TruncDiv(a, b) == a / b
  {}

  lemma StagesAreValid(jdn: nat, t: Date, n: int, i: int, r: int, j: int)
    requires Stages(jdn, t, n, i, r, j)
    ensures ValidDate(t) && MarchYear(t) == 100 * (n - 1) + i && MarchMonth(t) == j - 1
  {
    if j == 12 && t.day == 29 {
      CenturyLeap(n, i, 100 * (n - 1) + i + 1);
      Residues(t.year);
    }
  }

  lemma StagesCount(jdn: nat, t: Date, n: int, i: int, r: int, j: int)
    requires Stages(jdn, t, n, i, r, j)
    ensures ValidDate(t) && MarchYear(t) >= 0 && DayNumber(t.year, t.month, t.day) == jdn
  {
    StagesAreValid(jdn, t, n, i, r, j);
    CenturyBase(n, i, MarchYear(t));
    DayNumberParts(t);
    assert (n + 3) / 4 == (n - 1) / 4 + 1;
  }

  /** Every day number decodes to a valid date, and that date has this day number. */
  lemma JdnRoundTrip(jdn: nat)
    ensures var t := JdnToYmd(jdn);
      ValidDate(t) && MarchYear(t) >= 0 && DayNumber(t.year, t.month, t.day) == jdn
  {
    var n, i, r, j := JdnStages(jdn);
    var t := JdnToYmd(jdn);
    StagesCount(jdn, t, n, i, r, j);
  }

  /** `YmdToJdn` undoes `JdnToYmd` on every 32-bit day number. */
  lemma YmdUndoesJdn(jdn: nat)
    requires jdn < Dbf.UINT32
    ensures var t := JdnToYmd(jdn); ValidDate(t) && YmdToJdn(t.year, t.month, t.day) == jdn
  {
    JdnRoundTrip(jdn);
    InRange(JdnToYmd(jdn));
  }

  lemma InRange(t: Date)
    requires 0 <= DayNumber(t.year, t.month, t.day) < Dbf.UINT32
    ensures YmdToJdn(t.year, t.month, t.day) == DayNumber(t.year, t.month, t.day)
  {}

  /** The day after has the next day number. */
  lemma NextDayNumber(t: Date)
    requires ValidDate(t) && MarchYear(t) >= 0
    ensures ValidDate(NextDay(t)) && MarchYear(NextDay(t)) >= 0
    ensures var u := NextDay(t); DayNumber(u.year, u.month, u.day) == DayNumber(t.year, t.month, t.day) + 1
  {
    hide DayNumber, YearBase, IsLeap, DaysInMonth, NextDay, ValidDate;
    var u := NextDay(t);
    NextDayIsValid(t);
    DayNumberParts(t);
    DayNumberParts(u);
    if MarchYear(u) == MarchYear(t) {
      NextDayInYear(t);
    } else {
      YearLength(t.year);
      NewMarchYear(t);
    }
  }

  lemma NextDayIsValid(t: Date)
    requires ValidDate(t)
    ensures ValidDate(NextDay(t)) && MarchYear(NextDay(t)) >= MarchYear(t)
  {}

  lemma NextDayInYear(t: Date)
    requires ValidDate(t) && MarchYear(NextDay(t)) == MarchYear(t)
    ensures var u := NextDay(t); MonthBase(MarchMonth(u)) + u.day == MonthBase(MarchMonth(t)) + t.day + 1
  {}

  lemma NewMarchYear(t: Date)
    requires ValidDate(t) && MarchYear(NextDay(t)) != MarchYear(t)
    ensures t.month == 2 && t.day == (if IsLeap(t.year) then 29 else 28) && NextDay(t) == Date(t.year, 3, 1)
  {}

  /** Day numbers are ordered exactly as the dates are. */
  lemma DayNumberOrder(s: Date, t: Date)
    requires ValidDate(s) && ValidDate(t) && MarchYear(s) >= 0 && MarchYear(t) >= 0
    ensures Before(s, t) <==> DayNumber(s.year, s.month, s.day) < DayNumber(t.year, t.month, t.day)
    ensures DayNumber(s.year, s.month, s.day) == DayNumber(t.year, t.month, t.day) ==> s == t
  {
    if Before(s, t) {
      EarlierIsSmaller(s, t);
    } else if s != t {
      EarlierIsSmaller(t, s);
    }
  }

  lemma DayOfYear(t: Date)
    requires ValidDate(t)
    ensures var n := MonthBase(MarchMonth(t)) + t.day;
      1 <= n <= 365 + (if IsLeap(MarchYear(t) + 1 - 4800) then 1 else 0)
  {}

  lemma SameYear(s: Date, t: Date)
    requires ValidDate(s) && ValidDate(t) && Before(s, t) && MarchYear(s) >= MarchYear(t)
    ensures MarchYear(s) == MarchYear(t)
    ensures MonthBase(MarchMonth(s)) + s.day < MonthBase(MarchMonth(t)) + t.day
  {}

  lemma EarlierIsSmaller(s: Date, t: Date)
    requires ValidDate(s) && ValidDate(t) && MarchYear(s) >= 0 && MarchYear(t) >= 0 && Before(s, t)
    ensures DayNumber(s.year, s.month, s.day) < DayNumber(t.year, t.month, t.day)
  {
    DayNumberParts(s);
    DayNumberParts(t);
    DayOfYear(s);
    DayOfYear(t);
    if MarchYear(s) < MarchYear(t) {
      YearLength(MarchYear(s) + 1 - 4800);
      YearBaseGrows(MarchYear(s) + 1, MarchYear(t));
    } else {
      SameYear(s, t);
    }
  }

  /** The converse round trip: every valid date whose day number fits 32 bits is recovered. */
  lemma YmdRoundTrip(t: Date)
    requires ValidDate(t) && 0 <= DayNumber(t.year, t.month, t.day) < Dbf.UINT32
    ensures JdnToYmd(YmdToJdn(t.year, t.month, t.day)) == t
  {
    if MarchYear(t) < 0 {
      EarlyDatesAreNegative(t);
      assert false;
    }
    var jdn := DayNumber(t.year, t.month, t.day);
    InRange(t);
    SameDayNumber(t, jdn);
  }

  /** The calendar walked day by day from day number 0, with no arithmetic on day numbers. */
  ghost function DaysAfterEpoch(n: nat): Date {
    if n == 0 then Date(-4713, 11, 24) else NextDay(DaysAfterEpoch(n - 1))
  }

  /** `JdnToYmd` is that walk. */
  lemma JdnWalksTheCalendar(jdn: nat)
    ensures JdnToYmd(jdn) == DaysAfterEpoch(jdn)
  {
    WalkCounts(jdn);
    SameDayNumber(DaysAfterEpoch(jdn), jdn);
  }

  lemma {:induction false} WalkCounts(n: nat)
    ensures var t := DaysAfterEpoch(n);
      ValidDate(t) && MarchYear(t) >= 0 && DayNumber(t.year, t.month, t.day) == n
  {
    if n > 0 {
      WalkCounts(n - 1);
      NextDayNumber(DaysAfterEpoch(n - 1));
    }
  }

  /** A valid date with day number `jdn` is the one `JdnToYmd` returns. */
  lemma SameDayNumber(t: Date, jdn: nat)
    requires ValidDate(t) && MarchYear(t) >= 0 && DayNumber(t.year, t.month, t.day) == jdn
    ensures JdnToYmd(jdn) == t
  {
    JdnRoundTrip(jdn);
    DayNumberOrder(t, JdnToYmd(jdn));
  }
}
