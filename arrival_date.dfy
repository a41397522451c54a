/** The client-side arrival-date helper (`getArrivalDate` in the profile
    context of the web client): a trip that arrives at or before its
    departure time of day arrives on the following calendar day. The result
    is rendered as `${year}-${MM}-${DD}`. */
module ArrivalDate {
  import opened Wrappers
  import opened Calendar

  /** The calendar day of arrival. The two times are compared on the same
      travel date, so "arrival <= departure" is a comparison of times of day. */
  function ArrivalDay(departureTime: Time, arrivalTime: Time, travelDate: Date): Date
    requires ValidDate(travelDate)
  {
    if arrivalTime <= departureTime then NextDay(travelDate) else travelDate
  }

  /** The arrival day is the travel date when the trip arrives later the same
      day, the next day otherwise (equal times included); it is never before
      the travel date and never more than one day after it. */
  lemma ArrivalDayRollover(departureTime: Time, arrivalTime: Time, travelDate: Date)
    requires ValidDate(travelDate)
    ensures ValidDate(ArrivalDay(departureTime, arrivalTime, travelDate))
    ensures arrivalTime > departureTime ==> ArrivalDay(departureTime, arrivalTime, travelDate) == travelDate
    ensures arrivalTime <= departureTime ==>
              DayNumber(ArrivalDay(departureTime, arrivalTime, travelDate)) == DayNumber(travelDate) + 1
    ensures !DateBefore(ArrivalDay(departureTime, arrivalTime, travelDate), travelDate)
    ensures DayNumber(travelDate) <= DayNumber(ArrivalDay(departureTime, arrivalTime, travelDate)) <= DayNumber(travelDate) + 1
  {
    var a := ArrivalDay(departureTime, arrivalTime, travelDate);
    if arrivalTime <= departureTime {
      DayNumberNextDay(travelDate);
    }
    DayNumberOrder(a, travelDate);
  }

  // ---------------------------------------------------------------------
  // Rendering: String(year), then month and day padded to two digits.

  function DigitChar(d: int): (c: char)
    requires 0 <= d <= 9
    ensures '0' <= c <= '9'
  {
    (48 + d) as char
  }

  predicate IsDigit(c: char) {
    '0' <= c <= '9'
  }

  function DigitValue(c: char): int
    requires IsDigit(c)
  {
    c as int - 48
  }

  /** Decimal digits of a natural number, without leading zeros (JavaScript's
      String(n) for a non-negative integer). */
  function NatDigits(n: nat): (s: string)
    ensures |s| >= 1
    ensures forall i :: 0 <= i < |s| ==> IsDigit(s[i])
    decreases n
  {
    if n < 10 then [DigitChar(n)] else NatDigits(n / 10) + [DigitChar(n % 10)]
  }

  /** String(year): a minus sign for years before year 0. */
  function YearString(y: int): string {
    if y < 0 then "-" + NatDigits(-y) else NatDigits(y)
  }

  /** String(n).padStart(2, '0') for 0 <= n < 100. */
  function Pad2(n: int): string
    requires 0 <= n < 100
  {
    [DigitChar(n / 10), DigitChar(n % 10)]
  }

  function FormatDate(d: Date): string
    requires ValidDate(d)
  {
    YearString(d.year) + "-" + Pad2(d.month) + "-" + Pad2(d.day)
  }

  function GetArrivalDate(departureTime: Time, arrivalTime: Time, travelDate: Date): string
    requires ValidDate(travelDate)
  {
    FormatDate(ArrivalDay(departureTime, arrivalTime, travelDate))
  }

  // ---------------------------------------------------------------------
  // Reading a rendered date back, to state what the rendering means.

  predicate AllDigits(s: string) {
    forall i :: 0 <= i < |s| ==> IsDigit(s[i])
  }

  function DigitsValue(s: string): nat
    requires AllDigits(s)
  {
    if s == [] then 0 else DigitsValue(s[..|s| - 1]) * 10 + DigitValue(s[|s| - 1])
  }

  function ParseYear(s: string): Option<int> {
    if |s| >= 2 && s[0] == '-' && AllDigits(s[1..]) then Some(-(DigitsValue(s[1..]) as int))
    else if |s| >= 1 && AllDigits(s) then Some(DigitsValue(s))
    else None
  }

  /** Reads `<year>-MM-DD`. */
  function ParseDate(s: string): Option<Date> {
    if |s| < 7 then None
    else
      var n := |s|;
      var year := ParseYear(s[..n - 6]);
      var mm := s[n - 5..n - 3];
      var dd := s[n - 2..];
      if year.Some? && s[n - 6] == '-' && s[n - 3] == '-' && AllDigits(mm) && AllDigits(dd)
      then Some(Date(year.value, DigitsValue(mm), DigitsValue(dd)))
      else None
  }

  lemma {:induction false} NatDigitsValue(n: nat)
    ensures DigitsValue(NatDigits(n)) == n
    decreases n
  {
    var s := NatDigits(n);
    if n >= 10 {
      NatDigitsValue(n / 10);
      assert s[..|s| - 1] == NatDigits(n / 10);
    }
  }

  lemma YearStringParses(y: int)
    ensures ParseYear(YearString(y)) == Some(y)
  {
    if y < 0 {
      NatDigitsValue(-y);
      assert YearString(y)[1..] == NatDigits(-y);
    } else {
      NatDigitsValue(y);
    }
  }

  lemma Pad2Value(n: int)
    requires 0 <= n < 100
    ensures |Pad2(n)| == 2 && AllDigits(Pad2(n)) && DigitsValue(Pad2(n)) == n
  {
    var s := Pad2(n);
    assert s[..1] == [DigitChar(n / 10)];
    assert s[..1][..0] == [];
    assert DigitsValue(s[..1]) == n / 10;
    assert DigitsValue(s) == (n / 10) * 10 + n % 10;
  }

  /** The rendering is `<year>-MM-DD` with two-digit month and day, and it
      reads back as the date it was made from. */
  lemma {:induction false} FormatDateRoundTrip(d: Date)
    requires ValidDate(d)
    ensures ParseDate(FormatDate(d)) == Some(d)
    ensures |FormatDate(d)| == |YearString(d.year)| + 6
  {
    var y, m, dd := YearString(d.year), Pad2(d.month), Pad2(d.day);
    var s := FormatDate(d);
    var n := |s|;
    assert |y| >= 1 by { if d.year < 0 { } }
    Pad2Value(d.month);
    Pad2Value(d.day);
    YearStringParses(d.year);
    assert s[..n - 6] == y;
    assert s[n - 5..n - 3] == m;
    assert s[n - 2..] == dd;
  }

  /** What `getArrivalDate` returns, read back as a date. */
  lemma GetArrivalDateMeaning(departureTime: Time, arrivalTime: Time, travelDate: Date)
    requires ValidDate(travelDate)
    ensures arrivalTime > departureTime ==>
              ParseDate(GetArrivalDate(departureTime, arrivalTime, travelDate)) == Some(travelDate)
    ensures arrivalTime <= departureTime ==>
              ParseDate(GetArrivalDate(departureTime, arrivalTime, travelDate)) == Some(NextDay(travelDate))
  {
    FormatDateRoundTrip(ArrivalDay(departureTime, arrivalTime, travelDate));
  }

  /** 31 December rolls over to 1 January of the next year. */
  lemma NewYearRollover(departureTime: Time, arrivalTime: Time, year: int)
    requires arrivalTime <= departureTime
    ensures ParseDate(GetArrivalDate(departureTime, arrivalTime, Date(year, 12, 31))) == Some(Date(year + 1, 1, 1))
  {
    GetArrivalDateMeaning(departureTime, arrivalTime, Date(year, 12, 31));
  }
}
