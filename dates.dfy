/**
 * Calendar dates at day resolution, as the shift pass compares them after
 * `startOf('date')`, and the `MM/DD/YYYY` parse it applies to the date cell.
 * `None` from `ParseDate` stands for an "Invalid date" moment.
 */
module Dates {
  import opened Wrappers

  datatype Date = Date(year: int, month: int, day: int)

  predicate IsLeapYear(y: int) {
    y % 4 == 0 && (y % 100 != 0 || y % 400 == 0)
  }

  function DaysInMonth(y: int, m: int): (n: int)
    requires 1 <= m <= 12
    ensures 28 <= n <= 31
    ensures n == 29 <==> m == 2 && IsLeapYear(y)
  {
    if m == 2 then (if IsLeapYear(y) then 29 else 28)
    else if m == 4 || m == 6 || m == 9 || m == 11 then 30
    else 31
  }

  /** A real calendar day whose year has at most four digits. */
  predicate ValidDate(d: Date) {
    0 <= d.year <= 9999 && 1 <= d.month <= 12 && 1 <= d.day <= DaysInMonth(d.year, d.month)
  }

  /** Chronological order on days: lexicographic on (year, month, day). */
  predicate DateLe(a: Date, b: Date) {
    a.year < b.year
    || (a.year == b.year && a.month < b.month)
    || (a.year == b.year && a.month == b.month && a.day <= b.day)
  }

  lemma DateLeTotalOrder(a: Date, b: Date, c: Date)
    ensures DateLe(a, a)
    ensures DateLe(a, b) || DateLe(b, a)
    ensures DateLe(a, b) && DateLe(b, a) ==> a == b
    ensures DateLe(a, b) && DateLe(b, c) ==> DateLe(a, c)
  {
  }

  predicate IsDigit(c: char) {
    '0' <= c <= '9'
  }

  predicate AllDigits(s: string) {
    forall i :: 0 <= i < |s| ==> IsDigit(s[i])
  }

  /** The decimal number a string of digits denotes. */
  function Value(s: string): (n: nat)
    requires AllDigits(s)
    ensures |s| == 1 ==> n == s[0] as int - '0' as int
  {
    if |s| == 0 then 0 else Value(s[..|s| - 1]) * 10 + (s[|s| - 1] as int - '0' as int)
  }

  /**
   * The length (one or two) of the run of digits that starts `s` and is
   * followed by a '/', if there is one.
   */
  function FieldLength(s: string): (r: Option<nat>)
    ensures r.Some? ==> (r.value == 1 || r.value == 2) && r.value < |s|
    ensures r.Some? ==> s[r.value] == '/' && AllDigits(s[..r.value])
    ensures r.None? ==> !(|s| >= 2 && IsDigit(s[0]) && s[1] == '/')
    ensures r.None? ==> !(|s| >= 3 && IsDigit(s[0]) && IsDigit(s[1]) && s[2] == '/')
  {
    if |s| >= 2 && IsDigit(s[0]) && s[1] == '/' then Some(1)
    else if |s| >= 3 && IsDigit(s[0]) && IsDigit(s[1]) && s[2] == '/' then Some(2)
    else None
  }

  /**
   * Parses `M/D/YYYY` or `MM/DD/YYYY` (month and day of one or two digits,
   * a four-digit year) into a real calendar day; anything else, including an
   * impossible day such as 13/45/2019 or 02/30/2019, is `None`.
   */
  function ParseDate(s: string): (r: Option<Date>)
    ensures r.Some? ==> ValidDate(r.value)
    ensures r.Some? ==> 8 <= |s| <= 10 && s[|s| - 5] == '/' && AllDigits(s[|s| - 4..])
  {
    match FieldLength(s)
    case None => None
    case Some(ml) =>
      var rest := s[ml + 1..];
      match FieldLength(rest)
      case None => None
      case Some(dl) =>
        var ys := rest[dl + 1..];
        if |ys| == 4 && AllDigits(ys) then
          var d := Date(Value(ys), Value(s[..ml]), Value(rest[..dl]));
          if ValidDate(d) then Some(d) else None
        else None
  }

  /** A field of one or two digits, as the month and the day are written. */
  predicate ShortField(f: string) {
    1 <= |f| <= 2 && AllDigits(f)
  }

  /**
   * Text of the form month, '/', day, '/', four-digit year parses to exactly
   * the day those fields spell when that is a real day, and to `None` when it
   * is not (month 13, day 45, February 30).
   */
  lemma ParseDateFields(m: string, dd: string, y: string)
    requires ShortField(m) && ShortField(dd) && |y| == 4 && AllDigits(y)
    ensures var d := Date(Value(y), Value(m), Value(dd));
      ParseDate(m + "/" + dd + "/" + y) == if ValidDate(d) then Some(d) else None
  {
    var rest := dd + "/" + y;
    assert m + "/" + dd + "/" + y == m + "/" + rest;
    SplitField(m, rest);
    SplitField(dd, y);
    ParseDateParts(m + "/" + rest, m, rest, dd, y);
  }

  /** `ParseDate` read off a text already cut into its month, day and year fields. */
  lemma ParseDateParts(s: string, m: string, rest: string, dd: string, y: string)
    requires FieldLength(s) == Some(|m|) && s[..|m|] == m && s[|m| + 1..] == rest
    requires FieldLength(rest) == Some(|dd|) && rest[..|dd|] == dd && rest[|dd| + 1..] == y
    requires |y| == 4 && AllDigits(y)
    ensures var d := Date(Value(y), Value(m), Value(dd));
      ParseDate(s) == if ValidDate(d) then Some(d) else None
  {
    var ys := rest[|dd| + 1..];
    assert ys == y;
    var d := Date(Value(ys), Value(s[..|m|]), Value(rest[..|dd|]));
    assert d == Date(Value(y), Value(m), Value(dd));
  }

  /** A short field followed by '/' is split off exactly. */
  lemma SplitField(f: string, t: string)
    requires ShortField(f)
    ensures FieldLength(f + "/" + t) == Some(|f|)
    ensures (f + "/" + t)[..|f|] == f && (f + "/" + t)[|f| + 1..] == t
  {
    var s := f + "/" + t;
    assert s[|f|] == '/';
    assert s[..|f|] == f;
    assert s[|f| + 1..] == t;
  }

  /** Whatever `ParseDate` accepts has that form. */
  lemma ParseDateOnlyFields(s: string)
    requires ParseDate(s).Some?
    ensures exists m, dd, y :: ShortField(m) && ShortField(dd) && |y| == 4 && AllDigits(y) && s == m + "/" + dd + "/" + y
  {
    var ml := FieldLength(s).value;
    var rest := s[ml + 1..];
    var dl := FieldLength(rest).value;
    var m, dd, y := s[..ml], rest[..dl], rest[dl + 1..];
    assert s == m + "/" + dd + "/" + y;
  }

  function DigitChar(n: int): (c: char)
    requires 0 <= n < 10
    ensures IsDigit(c) && c as int - '0' as int == n
  {
    ('0' as int + n) as char
  }

  /** Two digits, zero-padded. */
  function Digits2(n: int): (s: string)
    requires 0 <= n < 100
    ensures |s| == 2 && AllDigits(s)
  {
    [DigitChar(n / 10), DigitChar(n % 10)]
  }

  /** Four digits, zero-padded. */
  function Digits4(n: int): (s: string)
    requires 0 <= n < 10000
    ensures |s| == 4 && AllDigits(s)
  {
    var q1 := n / 10;
    var q2 := q1 / 10;
    [DigitChar(q2 / 10), DigitChar(q2 % 10), DigitChar(q1 % 10), DigitChar(n % 10)]
  }

  /** The `MM/DD/YYYY` rendering of a day. */
  function FormatDate(d: Date): (s: string)
    requires ValidDate(d)
    ensures |s| == 10 && s[2] == '/' && s[5] == '/'
  {
    Digits2(d.month) + "/" + Digits2(d.day) + "/" + Digits4(d.year)
  }

  lemma {:induction false} ValueDigits2(n: int)
    requires 0 <= n < 100
    ensures Value(Digits2(n)) == n
  {
    var s := Digits2(n);
    assert s[..1] == [DigitChar(n / 10)];
    assert Value(s[..1]) == n / 10;
  }

  lemma {:induction false} ValueDigits4(n: int)
    requires 0 <= n < 10000
    ensures Value(Digits4(n)) == n
  {
    var s := Digits4(n);
    var q1 := n / 10;
    var q2 := q1 / 10;
    assert s[..3][..2][..1] == s[..1];
    assert s[..3][..2] == s[..2];
    assert Value(s[..1]) == q2 / 10;
    assert Value(s[..2]) == q2 / 10 * 10 + q2 % 10 == q2;
    assert Value(s[..3]) == q2 * 10 + q1 % 10 == q1;
  }

  /** Parsing what `FormatDate` renders gives the day back. */
  lemma {:induction false} ParseFormat(d: Date)
    requires ValidDate(d)
    ensures ParseDate(FormatDate(d)) == Some(d)
  {
    var s := FormatDate(d);
    var ms, ds, ys := Digits2(d.month), Digits2(d.day), Digits4(d.year);
    assert FieldLength(s) == Some(2);
    var rest := s[3..];
    assert rest == ds + "/" + ys;
    assert FieldLength(rest) == Some(2);
    assert rest[3..] == ys;
    assert s[..2] == ms;
    assert rest[..2] == ds;
    ValueDigits2(d.month);
    ValueDigits2(d.day);
    ValueDigits4(d.year);
  }

  lemma Value2019()
    ensures Value("2019") == 2019
  {
    assert "2019"[..3] == "201" && "201"[..2] == "20" && "20"[..1] == "2";
  }

  /** The first day of the window `processShiftRow` fixes. */
  lemma ParseWindowStart()
    ensures ParseDate("9/5/2019") == Some(Date(2019, 9, 5))
  {
    Value2019();
    var s := "9/5/2019";
    assert FieldLength(s) == Some(1) && s[..1] == "9";
    assert s[2..] == "5/2019";
    assert FieldLength(s[2..]) == Some(1) && s[2..][..1] == "5";
    assert s[2..][2..] == "2019";
  }

  /** The last day of the window `processShiftRow` fixes. */
  lemma ParseWindowEnd()
    ensures ParseDate("9/14/2019") == Some(Date(2019, 9, 14))
  {
    Value2019();
    var s := "9/14/2019";
    assert FieldLength(s) == Some(1) && s[..1] == "9";
    assert s[2..] == "14/2019";
    assert FieldLength(s[2..]) == Some(2) && s[2..][..2] == "14";
    assert "14"[..1] == "1";
    assert s[2..][3..] == "2019";
  }

  /** A two-digit-field date. */
  lemma ParseShiftDate()
    ensures ParseDate("09/10/2019") == Some(Date(2019, 9, 10))
  {
    Value2019();
    var s := "09/10/2019";
    assert FieldLength(s) == Some(2) && s[..2] == "09";
    assert "09"[..1] == "0";
    assert s[3..] == "10/2019";
    assert FieldLength(s[3..]) == Some(2) && s[3..][..2] == "10";
    assert "10"[..1] == "1";
    assert s[3..][3..] == "2019";
  }

  /** Month 13 has no day 45: the date is invalid. */
  lemma ParseImpossibleDay()
    ensures ParseDate("13/45/2019") == None
  {
    var s := "13/45/2019";
    assert FieldLength(s) == Some(2) && s[..2] == "13";
    assert "13"[..1] == "1";
    assert s[3..] == "45/2019";
  }
}
