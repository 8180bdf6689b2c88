/** Calendar dates, their "YYYY-MM-DD" text form, and the expiry test of a
    grocery item against the local clock. */
module Dates {
  import opened Errors

  datatype Date = Date(year: int, month: int, day: int)

  /** A reading of the local clock: a calendar date and the microseconds
      elapsed since that date's midnight. */
  datatype Instant = Instant(date: Date, micros: nat)

  predicate IsLeapYear(y: int) {
    y % 4 == 0 && (y % 100 != 0 || y % 400 == 0)
  }

  function DaysInMonth(y: int, m: int): (n: int)
    requires 1 <= m <= 12
    ensures 28 <= n <= 31
    ensures m == 2 ==> (n == 29 <==> IsLeapYear(y))
  {
    if m == 2 then (if IsLeapYear(y) then 29 else 28)
    else if m == 4 || m == 6 || m == 9 || m == 11 then 30
    else 31
  }

  /** A date the Python datetime type can represent. */
  predicate ValidDate(d: Date) {
    && 1 <= d.year <= 9999
    && 1 <= d.month <= 12
    && 1 <= d.day <= DaysInMonth(d.year, d.month)
  }

  /** Strict chronological order on dates. */
  predicate Before(a: Date, b: Date) {
    || a.year < b.year
    || (a.year == b.year && a.month < b.month)
    || (a.year == b.year && a.month == b.month && a.day < b.day)
  }

  /** Exactly one of "before", "equal", "after" holds of any two dates. */
  lemma BeforeTrichotomy(a: Date, b: Date)
    ensures Before(a, b) || a == b || Before(b, a)
    ensures !(Before(a, b) && Before(b, a))
    ensures !Before(a, a)
  {
  }

  // ---------------------------------------------------------------------
  // Decimal digits

  predicate IsDigit(c: char) { '0' <= c <= '9' }

  predicate AllDigits(s: string) {
    forall i :: 0 <= i < |s| ==> IsDigit(s[i])
  }

  function Pow10(n: nat): (p: nat)
    ensures p >= 1
  {
    if n == 0 then 1 else 10 * Pow10(n - 1)
  }

  /** The number a string of decimal digits denotes. */
  function NumberOf(s: string): (n: nat)
    requires AllDigits(s)
    ensures n < Pow10(|s|)
  {
    if s == [] then 0
    else NumberOf(s[..|s| - 1]) * 10 + (s[|s| - 1] as int - '0' as int)
  }

  /** `n` written with exactly `width` decimal digits, padded with zeros. */
  function Digits(n: nat, width: nat): (s: string)
    ensures |s| == width
    ensures AllDigits(s)
  {
    if width == 0 then []
    else Digits(n / 10, width - 1) + [(n % 10 + '0' as int) as char]
  }

  lemma {:induction false} NumberOfDigits(n: nat, width: nat)
    requires n < Pow10(width)
    ensures NumberOf(Digits(n, width)) == n
  {
    if width > 0 {
      var s := Digits(n, width);
      assert s[..width - 1] == Digits(n / 10, width - 1);
      NumberOfDigits(n / 10, width - 1);
    }
  }

  lemma {:induction false} DigitsOfNumber(s: string)
    requires AllDigits(s)
    ensures Digits(NumberOf(s), |s|) == s
  {
    if s != [] {
      var init := s[..|s| - 1];
      var n := NumberOf(s);
      assert n / 10 == NumberOf(init);
      DigitsOfNumber(init);
      assert s == init + [s[|s| - 1]];
    }
  }

  // ---------------------------------------------------------------------
  // The "%Y-%m-%d" text form

  /** The text written for a date, as `strftime("%Y-%m-%d")` does. */
  function FormatDate(d: Date): (s: string)
    requires ValidDate(d)
    ensures |s| == 10
  {
    Digits(d.year, 4) + "-" + Digits(d.month, 2) + "-" + Digits(d.day, 2)
  }

  /** Reads a "YYYY-MM-DD" date; None where parsing raises ValueError. */
  function ParseDate(s: string): (r: Option<Date>)
    ensures r.Some? ==> ValidDate(r.value)
  {
    if |s| == 10 && s[4] == '-' && s[7] == '-'
       && AllDigits(s[0..4]) && AllDigits(s[5..7]) && AllDigits(s[8..10])
    then
      var d := Date(NumberOf(s[0..4]), NumberOf(s[5..7]), NumberOf(s[8..10]));
      if ValidDate(d) then Some(d) else None
    else None
  }

  /** Every valid date reads back from its text form. */
  lemma ParseFormattedDate(d: Date)
    requires ValidDate(d)
    ensures ParseDate(FormatDate(d)) == Some(d)
  {
    var s := FormatDate(d);
    assert s[0..4] == Digits(d.year, 4);
    assert s[5..7] == Digits(d.month, 2);
    assert s[8..10] == Digits(d.day, 2);
    NumberOfDigits(d.year, 4);
    NumberOfDigits(d.month, 2);
    NumberOfDigits(d.day, 2);
  }

  /** The only texts that parse are the formatted forms of their dates. */
  lemma ParsedDateIsFormatted(s: string)
    requires ParseDate(s).Some?
    ensures FormatDate(ParseDate(s).value) == s
  {
    var year, month, day := s[0..4], s[5..7], s[8..10];
    assert ParseDate(s).value == Date(NumberOf(year), NumberOf(month), NumberOf(day));
    DigitsOfNumber(year);
    DigitsOfNumber(month);
    DigitsOfNumber(day);
    assert s == year + "-" + month + "-" + day;
  }

  // ---------------------------------------------------------------------
  // Expiry

  /** Whether midnight at the start of `expiry` lies strictly before `now`. */
  predicate ExpiredAt(expiry: Date, now: Instant): (b: bool)
    ensures Before(expiry, now.date) ==> b
    ensures b ==> !Before(now.date, expiry)
    ensures expiry == now.date ==> (b <==> now.micros > 0)
  {
    Before(expiry, now.date) || (expiry == now.date && now.micros > 0)
  }

  /** Grocery.is_expired: parse the stored text, then compare with the clock. */
  function IsExpired(expiryText: string, now: Instant): (r: Result<bool>)
    ensures r.Err? <==> ParseDate(expiryText).None?
    ensures r.Err? ==> r.error == BadDate
  {
    match ParseDate(expiryText)
    case None => Err(BadDate)
    case Some(d) => Ok(ExpiredAt(d, now))
  }

  /** Once the day has begun, an item counts as expired on its expiry day
      itself and on every later day, and on no earlier day. */
  lemma ExpiredFromExpiryDay(expiry: Date, now: Instant)
    requires now.micros > 0
    ensures ExpiredAt(expiry, now) <==> !Before(now.date, expiry)
  {
    BeforeTrichotomy(expiry, now.date);
  }

  /** Exactly at midnight the test is the strict date comparison. */
  lemma ExpiredAtMidnight(expiry: Date, now: Instant)
    requires now.micros == 0
    ensures ExpiredAt(expiry, now) <==> Before(expiry, now.date)
  {
  }

  lemma YearDigits()
    ensures Digits(2024, 4) == "2024" && Digits(2025, 4) == "2025"
  {
    assert Digits(2, 1) == "2" && Digits(20, 2) == "20" && Digits(202, 3) == "202";
  }

  lemma NewYearsEveText()
    ensures ParseDate("2024-12-31") == Some(Date(2024, 12, 31))
  {
    YearDigits();
    assert Digits(12, 2) == "12" by { assert Digits(1, 1) == "1"; }
    assert Digits(31, 2) == "31" by { assert Digits(3, 1) == "3"; }
    assert FormatDate(Date(2024, 12, 31)) == "2024-12-31";
    ParseFormattedDate(Date(2024, 12, 31));
  }

  lemma MidsummerText()
    ensures ParseDate("2025-06-01") == Some(Date(2025, 6, 1))
  {
    YearDigits();
    assert Digits(6, 2) == "06" && Digits(1, 2) == "01" by { assert Digits(0, 1) == "0"; }
    assert FormatDate(Date(2025, 6, 1)) == "2025-06-01";
    ParseFormattedDate(Date(2025, 6, 1));
  }

  /** With the clock on 2025-01-01, an item dated 2024-12-31 has expired
      and one dated 2025-06-01 has not. */
  lemma ExpiryExamples(micros: nat)
    ensures IsExpired("2024-12-31", Instant(Date(2025, 1, 1), micros)) == Ok(true)
    ensures IsExpired("2025-06-01", Instant(Date(2025, 1, 1), micros)) == Ok(false)
  {
    NewYearsEveText();
    MidsummerText();
  }
}
