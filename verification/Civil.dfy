/** Proleptic Gregorian dates as day numbers, as in section 21.4.1 of ECMA-262,
    and their `YYYY-MM-DD` text. Day 0 is 1970-01-01. */
module Civil {
  import opened JsText

  datatype Date = Date(year: int, month: int, day: int)

  predicate Leap(y: int) {
    y % 4 == 0 && (y % 100 != 0 || y % 400 == 0)
  }

  function DaysInYear(y: int): int {
    if Leap(y) then 366 else 365
  }

  function DayFromYear(y: int): int {
    365 * (y - 1970) + (y - 1969) / 4 - (y - 1901) / 100 + (y - 1601) / 400
  }

  /** Days of the year before a month; month 13 stands for the year's end. */
  function MonthStart(m: int, leap: bool): int {
    var l := if leap then 1 else 0;
    if m <= 1 then 0
    else if m == 2 then 31
    else if m == 3 then 59 + l
    else if m == 4 then 90 + l
    else if m == 5 then 120 + l
    else if m == 6 then 151 + l
    else if m == 7 then 181 + l
    else if m == 8 then 212 + l
    else if m == 9 then 243 + l
    else if m == 10 then 273 + l
    else if m == 11 then 304 + l
    else if m == 12 then 334 + l
    else 365 + l
  }

  /** `Date.UTC(y, m - 1, d)` in days: months and days may overflow. */
  function MakeDay(y: int, m: int, d: int): int {
    var ym, mn := y + (m - 1) / 12, (m - 1) % 12 + 1;
    DayFromYear(ym) + MonthStart(mn, Leap(ym)) + d - 1
  }

  function DaysInMonth(y: int, m: int): int {
    MonthStart(m + 1, Leap(y)) - MonthStart(m, Leap(y))
  }

  predicate ValidDate(c: Date) {
    1 <= c.month <= 12 && 1 <= c.day <= DaysInMonth(c.year, c.month)
  }

  function DayNumber(c: Date): int {
    MakeDay(c.year, c.month, c.day)
  }

  lemma YearStep(y: int)
    ensures DayFromYear(y + 1) == DayFromYear(y) + DaysInYear(y)
  {
    FourStep(y);
    HundredStep(y);
    FourHundredStep(y);
  }

  lemma FourStep(y: int)
    ensures (y + 1 - 1969) / 4 == (y - 1969) / 4 + if y % 4 == 0 then 1 else 0
  {
  }

  lemma HundredStep(y: int)
    ensures (y + 1 - 1901) / 100 == (y - 1901) / 100 + if y % 100 == 0 then 1 else 0
  {
  }

  lemma FourHundredStep(y: int)
    ensures (y + 1 - 1601) / 400 == (y - 1601) / 400 + if y % 400 == 0 then 1 else 0
    ensures y % 400 == 0 ==> y % 100 == 0
    ensures y % 100 == 0 ==> y % 4 == 0
  {
  }

  /** The year a day falls in: an estimate from the mean year, corrected by one. */
  function YearOf(day: int): (y: int)
    ensures DayFromYear(y) <= day < DayFromYear(y + 1)
  {
    var e := 1970 + 400 * day / 146097;
    EstimateIsClose(day);
    YearStep(e - 1);
    YearStep(e);
    if day < DayFromYear(e) then e - 1
    else if day >= DayFromYear(e + 1) then e + 1
    else e
  }

  lemma EstimateIsClose(day: int)
    ensures var e := 1970 + 400 * day / 146097;
            DayFromYear(e - 1) <= day < DayFromYear(e + 2)
  {
    var q := 400 * day / 146097;
    assert 146097 * q <= 400 * day < 146097 * q + 146097;
    MeanYear(1970 + q - 1);
    MeanYear(1970 + q + 2);
  }

  lemma MeanYear(y: int)
    ensures 146097 * (y - 1970) - 400 * 2 < 400 * DayFromYear(y) < 146097 * (y - 1970) + 400 * 2
  {
    var a, b, c := (y - 1969) / 4, (y - 1901) / 100, (y - 1601) / 400;
    assert 4 * a <= y - 1969 <= 4 * a + 3;
    assert 100 * b <= y - 1901 <= 100 * b + 99;
    assert 400 * c <= y - 1601 <= 400 * c + 399;
  }

  lemma {:induction false} YearsIncrease(x: int, y: int)
    requires x < y
    ensures DayFromYear(x) < DayFromYear(y)
    decreases y - x
  {
    YearStep(x);
    if x + 1 < y {
      YearsIncrease(x + 1, y);
    }
  }

  lemma YearIsUnique(day: int, y: int)
    requires DayFromYear(y) <= day < DayFromYear(y + 1)
    ensures YearOf(day) == y
  {
    var z := YearOf(day);
    if z < y {
      YearsUpTo(z + 1, y);
    } else if y < z {
      YearsUpTo(y + 1, z);
    }
  }

  lemma YearsUpTo(x: int, y: int)
    requires x <= y
    ensures DayFromYear(x) <= DayFromYear(y)
  {
    if x < y {
      YearsIncrease(x, y);
    }
  }

  function MonthOf(n: int, leap: bool): (m: int)
    requires 0 <= n < 365 + (if leap then 1 else 0)
    ensures 1 <= m <= 12 && MonthStart(m, leap) <= n < MonthStart(m + 1, leap)
  {
    if n < MonthStart(2, leap) then 1
    else if n < MonthStart(3, leap) then 2
    else if n < MonthStart(4, leap) then 3
    else if n < MonthStart(5, leap) then 4
    else if n < MonthStart(6, leap) then 5
    else if n < MonthStart(7, leap) then 6
    else if n < MonthStart(8, leap) then 7
    else if n < MonthStart(9, leap) then 8
    else if n < MonthStart(10, leap) then 9
    else if n < MonthStart(11, leap) then 10
    else if n < MonthStart(12, leap) then 11
    else 12
  }

  lemma MakeDayInYear(y: int, m: int, d: int)
    requires 1 <= m <= 12
    ensures MakeDay(y, m, d) == DayFromYear(y) + MonthStart(m, Leap(y)) + d - 1
  {
    hide DayFromYear, MonthStart, Leap;
    assert (m - 1) / 12 == 0 && (m - 1) % 12 == m - 1;
  }

  /** `getUTCFullYear`, `getUTCMonth() + 1`, `getUTCDate` of a day. */
  function DateOf(day: int): (c: Date)
    ensures ValidDate(c) && DayNumber(c) == day
  {
    hide DayFromYear, MakeDay;
    var y := YearOf(day);
    YearStep(y);
    var n := day - DayFromYear(y);
    var m := MonthOf(n, Leap(y));
    MakeDayInYear(y, m, n - MonthStart(m, Leap(y)) + 1);
    Date(y, m, n - MonthStart(m, Leap(y)) + 1)
  }

  lemma MonthIsUnique(m: int, k: int, n: int, leap: bool)
    requires 1 <= m <= 12 && 1 <= k <= 12
    requires MonthStart(m, leap) <= n < MonthStart(m + 1, leap)
    requires MonthStart(k, leap) <= n < MonthStart(k + 1, leap)
    ensures m == k
  {
  }

  lemma DayInYear(c: Date)
    requires ValidDate(c)
    ensures DayFromYear(c.year) <= DayNumber(c) < DayFromYear(c.year + 1)
    ensures DayNumber(c) == DayFromYear(c.year) + MonthStart(c.month, Leap(c.year)) + c.day - 1
  {
    hide DayFromYear, MakeDay;
    YearStep(c.year);
    MakeDayInYear(c.year, c.month, c.day);
    assert MonthStart(c.month + 1, Leap(c.year)) <= DaysInYear(c.year);
  }

  /** Dates and day numbers correspond one to one. */
  lemma DateRoundTrip(c: Date)
    requires ValidDate(c)
    ensures DateOf(DayNumber(c)) == c
  {
    hide DayFromYear, MakeDay, DayNumber, DateOf, MonthStart, Leap;
    var d := DateOf(DayNumber(c));
    DayInYear(c);
    DayInYear(d);
    YearIsUnique(DayNumber(c), c.year);
    YearIsUnique(DayNumber(c), d.year);
    SameYearSameDate(c, d);
  }

  lemma SameYearSameDate(c: Date, d: Date)
    requires ValidDate(c) && ValidDate(d) && c.year == d.year
    requires MonthStart(c.month, Leap(c.year)) + c.day == MonthStart(d.month, Leap(d.year)) + d.day
    ensures c == d
  {
    MonthIsUnique(c.month, d.month, MonthStart(c.month, Leap(c.year)) + c.day - 1, Leap(c.year));
  }

  // ---- The calendar as it is taught ----

  /** Thirty days have September, April, June and November; February follows the
      leap rule. */
  function MonthLength(y: int, m: int): int {
    if m == 2 then (if y % 400 == 0 || (y % 4 == 0 && y % 100 != 0) then 29 else 28)
    else if m in {4, 6, 9, 11} then 30 else 31
  }

  /** The real dates. */
  lemma ValidDateIff(c: Date)
    ensures ValidDate(c) <==> 1 <= c.month <= 12 && 1 <= c.day <= MonthLength(c.year, c.month)
  {
  }

  /** The day after: in the same month, or the first of the next one, or New Year. */
  function NextDay(c: Date): Date {
    if c.day < MonthLength(c.year, c.month) then Date(c.year, c.month, c.day + 1)
    else if c.month < 12 then Date(c.year, c.month + 1, 1)
    else Date(c.year + 1, 1, 1)
  }

  /** Day numbers count the days of the calendar from 1970-01-01 on: with
      NextDayIsNext this fixes the number of every date. */
  lemma EpochIsDayZero()
    ensures DayNumber(Date(1970, 1, 1)) == 0
  {
  }

  lemma NextDayIsNext(c: Date)
    requires ValidDate(c)
    ensures ValidDate(NextDay(c)) && DayNumber(NextDay(c)) == DayNumber(c) + 1
  {
    hide DayFromYear, MakeDay;
    var d := NextDay(c);
    YearStep(c.year);
    MakeDayInYear(c.year, c.month, c.day);
    MakeDayInYear(d.year, d.month, d.day);
  }

  // ---- Text ----

  const DASH: Unit := 45

  predicate Digit(u: Unit) { 48 <= u <= 57 }

  function Two(n: int): (t: Text)
    ensures |t| == 2
  {
    [48 + n / 10 % 10, 48 + n % 10]
  }

  function Four(n: int): (t: Text)
    ensures |t| == 4
  {
    Two(n / 100) + Two(n)
  }

  /** Decimal digits without leading zeros. */
  function Digits(n: nat): (t: Text)
    ensures |t| >= 1 && (n >= 10 ==> |t| >= 2) && (n >= 100 ==> |t| >= 3) && (n >= 1000 ==> |t| >= 4)
    ensures n >= 10000 ==> |t| > 4
  {
    if n < 10 then [48 + n] else Digits(n / 10) + [48 + n % 10]
  }

  /** `year.toString().padStart(4, "0")` for the years that occur. */
  function YearText(y: nat): Text {
    if y < 10000 then Four(y) else Digits(y)
  }

  /** The three numbers joined with dashes. */
  function DateText(c: Date): Text
    requires c.year >= 0
  {
    YearText(c.year) + [DASH] + Two(c.month) + [DASH] + Two(c.day)
  }

  /** `/^\d{4}-\d{2}-\d{2}$/` */
  predicate DateShaped(t: Text) {
    && |t| == 10 && t[4] == DASH && t[7] == DASH
    && Digit(t[0]) && Digit(t[1]) && Digit(t[2]) && Digit(t[3])
    && Digit(t[5]) && Digit(t[6]) && Digit(t[8]) && Digit(t[9])
  }

  /** `fieldDay.split("-").map(Number)` of a date-shaped text. */
  function NumbersOf(t: Text): (c: Date)
    requires DateShaped(t)
    ensures 0 <= c.year < 10000
  {
    Date(1000 * (t[0] - 48) + 100 * (t[1] - 48) + 10 * (t[2] - 48) + (t[3] - 48),
         10 * (t[5] - 48) + (t[6] - 48),
         10 * (t[8] - 48) + (t[9] - 48))
  }

  /** Four digits, two and two, with dashes between. */
  lemma ShapedIff(t: Text)
    ensures DateShaped(t) <==>
            && |t| == 10 && t[4] == '-' as int && t[7] == '-' as int
            && forall i <- [0, 1, 2, 3, 5, 6, 8, 9] :: '0' as int <= t[i] <= '9' as int
  {
    var places := [0, 1, 2, 3, 5, 6, 8, 9];
    assert forall k :: 0 <= k < 8 ==> places[k] in places;
    assert places[0] == 0 && places[1] == 1 && places[2] == 2 && places[3] == 3;
    assert places[4] == 5 && places[5] == 6 && places[6] == 8 && places[7] == 9;
  }

  /** The number a text of digits is read as. */
  ghost function ValueOf(t: Text): int {
    if t == [] then 0 else 10 * ValueOf(t[..|t| - 1]) + (t[|t| - 1] - '0' as int)
  }

  /** A year of more than four digits is printed as it is read, without a zero
      in front. */
  lemma {:induction false} DigitsRead(n: nat)
    ensures ValueOf(Digits(n)) == n && (n > 0 ==> Digits(n)[0] != '0' as int)
    ensures forall u <- Digits(n) :: '0' as int <= u <= '9' as int
  {
    if n >= 10 {
      DigitsRead(n / 10);
      assert Digits(n)[..|Digits(n)| - 1] == Digits(n / 10);
    } else {
      assert ValueOf([48 + n]) == 10 * ValueOf([]) + n;
    }
  }

  lemma FourDigits(n: int)
    requires 0 <= n < 10000
    ensures var t := Four(n);
            && Digit(t[0]) && Digit(t[1]) && Digit(t[2]) && Digit(t[3])
            && 1000 * (t[0] - 48) + 100 * (t[1] - 48) + 10 * (t[2] - 48) + (t[3] - 48) == n
  {
    assert n / 10 == 10 * (n / 100) + n / 10 % 10;
    assert n / 100 / 10 % 10 == n / 100 / 10;
  }

  /** Month and day as they are printed, whether or not there is such a date. */
  predicate Printed(c: Date) {
    1 <= c.month <= 12 && 1 <= c.day <= 31
  }

  lemma ValidIsPrinted(c: Date)
    requires ValidDate(c)
    ensures Printed(c)
  {
  }

  /** Reading a date text back gives the date. */
  lemma TextRoundTrip(c: Date)
    requires Printed(c) && 0 <= c.year < 10000
    ensures DateShaped(DateText(c)) && NumbersOf(DateText(c)) == c
  {
    FourDigits(c.year);
    var t := DateText(c);
    assert t[..4] == Four(c.year);
  }

  lemma ShapedIsText(t: Text)
    requires DateShaped(t)
    ensures DateText(NumbersOf(t)) == t
  {
    var c := NumbersOf(t);
    TwoDigits(t[0] - 48, t[1] - 48);
    TwoDigits(t[2] - 48, t[3] - 48);
    TwoDigits(t[5] - 48, t[6] - 48);
    TwoDigits(t[8] - 48, t[9] - 48);
    FourOfPairs(10 * (t[0] - 48) + (t[1] - 48), 10 * (t[2] - 48) + (t[3] - 48));
    assert DateText(c) == t;
  }

  lemma TwoDigits(a: int, b: int)
    requires 0 <= a < 10 && 0 <= b < 10
    ensures Two(10 * a + b) == [48 + a, 48 + b]
  {
    assert (10 * a + b) / 10 == a && (10 * a + b) % 10 == b;
  }

  lemma FourOfPairs(a: int, b: int)
    requires 0 <= a < 100 && 0 <= b < 100
    ensures Four(100 * a + b) == Two(a) + Two(b)
  {
    assert (100 * a + b) / 100 == a;
    assert (100 * a + b) % 10 == b % 10;
    assert (100 * a + b) / 10 == 10 * a + b / 10;
    assert (10 * a + b / 10) % 10 == b / 10 % 10;
  }

  /** A date text of four-digit years determines its date among all years. */
  lemma TextIsInjective(c: Date, d: Date)
    requires Printed(c) && Printed(d) && 0 <= c.year < 10000 && 0 <= d.year
    ensures DateText(c) == DateText(d) <==> c == d
  {
    TextRoundTrip(c);
    if d.year < 10000 {
      TextRoundTrip(d);
    } else {
      assert |DateText(d)| > 10;
    }
  }
}
