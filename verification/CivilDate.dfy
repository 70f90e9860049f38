/**
  * Turning a count of days since 1970-01-01 into a Gregorian date, against the calendar of RFC 3339 (section 5.7
  * for the lengths of the months, Appendix C for leap years).
  */
module CivilDate {

  // ---------- The calendar ----------

  datatype Date = Date(year: int, month: int, day: int)

  predicate IsLeap(year: int) {
    year % 4 == 0 && (year % 100 != 0 || year % 400 == 0)
  }

  function DaysInMonth(year: int, month: int): int {
    if month == 2 then (if IsLeap(year) then 29 else 28)
    else if month in {4, 6, 9, 11} then 30
    else 31
  }

  predicate IsDate(date: Date) {
    1 <= date.month <= 12 && 1 <= date.day <= DaysInMonth(date.year, date.month)
  }

  /** The day after. */
  function Successor(date: Date): Date {
    if date.day < DaysInMonth(date.year, date.month) then date.(day := date.day + 1)
    else if date.month < 12 then Date(date.year, date.month + 1, 1)
    else Date(date.year + 1, 1, 1)
  }

  predicate Earlier(a: Date, b: Date) {
    || a.year < b.year
    || (a.year == b.year && (a.month < b.month || (a.month == b.month && a.day < b.day)))
  }

  // ---------- Counting days ----------

  function DaysBeforeYear(year: int): int {
    365 * (year - 1) + (year - 1) / 4 - (year - 1) / 100 + (year - 1) / 400
  }

  function DaysBeforeMonth(year: int, month: int): int
    requires 1 <= month <= 13
    decreases month
  {
    if month == 1 then 0 else DaysBeforeMonth(year, month - 1) + DaysInMonth(year, month - 1)
  }

  /** Days from 1970-01-01 to the date. */
  function DayNumber(date: Date): int
    requires 1 <= date.month <= 12
  {
    DaysBeforeYear(date.year) - DaysBeforeYear(1970) + DaysBeforeMonth(date.year, date.month) + date.day - 1
  }

  lemma FourthYears(year: int)
    ensures year / 4 - (year - 1) / 4 == if year % 4 == 0 then 1 else 0
  {
  }

  lemma Centuries(year: int)
    ensures year / 100 - (year - 1) / 100 == if year % 100 == 0 then 1 else 0
  {
  }

  lemma FourCenturies(year: int)
    ensures year / 400 - (year - 1) / 400 == if year % 400 == 0 then 1 else 0
  {
  }

  lemma FourCenturiesAreCenturies(year: int)
    requires year % 400 == 0
    ensures year % 100 == 0
  {
    var q := year / 400;
    assert year == 100 * (4 * q);
  }

  lemma CenturiesAreFourthYears(year: int)
    requires year % 100 == 0
    ensures year % 4 == 0
  {
    var q := year / 100;
    assert year == 4 * (25 * q);
  }

  lemma YearLength(year: int)
    ensures DaysBeforeYear(year + 1) - DaysBeforeYear(year) == if IsLeap(year) then 366 else 365
  {
    FourthYears(year);
    Centuries(year);
    FourCenturies(year);
    if year % 400 == 0 {
      FourCenturiesAreCenturies(year);
    }
    if year % 100 == 0 {
      CenturiesAreFourthYears(year);
    }
  }

  lemma MonthTable(year: int)
    ensures DaysBeforeMonth(year, 2) == 31
    ensures var leap := if IsLeap(year) then 1 else 0;
            && DaysBeforeMonth(year, 3) == 59 + leap
            && DaysBeforeMonth(year, 4) == 90 + leap
            && DaysBeforeMonth(year, 5) == 120 + leap
            && DaysBeforeMonth(year, 6) == 151 + leap
            && DaysBeforeMonth(year, 7) == 181 + leap
            && DaysBeforeMonth(year, 8) == 212 + leap
            && DaysBeforeMonth(year, 9) == 243 + leap
            && DaysBeforeMonth(year, 10) == 273 + leap
            && DaysBeforeMonth(year, 11) == 304 + leap
            && DaysBeforeMonth(year, 12) == 334 + leap
            && DaysBeforeMonth(year, 13) == 365 + leap
  {
    hide IsLeap;
    assert DaysBeforeMonth(year, 3) == 31 + DaysInMonth(year, 2);
    assert DaysBeforeMonth(year, 5) == DaysBeforeMonth(year, 3) + 61;
    assert DaysBeforeMonth(year, 7) == DaysBeforeMonth(year, 5) + 61;
    assert DaysBeforeMonth(year, 9) == DaysBeforeMonth(year, 7) + 62;
    assert DaysBeforeMonth(year, 11) == DaysBeforeMonth(year, 9) + 61;
    assert DaysBeforeMonth(year, 13) == DaysBeforeMonth(year, 11) + 61;
  }

  /** The count starts at 1970-01-01 and goes up by one a day, through months, years and leap days. */
  lemma CountsEveryDay(date: Date)
    requires IsDate(date)
    ensures DayNumber(Date(1970, 1, 1)) == 0
    ensures IsDate(Successor(date)) && DayNumber(Successor(date)) == DayNumber(date) + 1
  {
    hide DaysBeforeYear;
    YearLength(date.year);
    MonthTable(date.year);
  }

  lemma {:induction false} LaterMonth(year: int, a: int, b: int)
    requires 1 <= a < b <= 13
    ensures DaysBeforeMonth(year, a) + DaysInMonth(year, a) <= DaysBeforeMonth(year, b)
    decreases b
  {
    if a + 1 < b {
      LaterMonth(year, a, b - 1);
    }
  }

  lemma {:induction false} LaterYear(a: int, b: int)
    requires a <= b
    ensures DaysBeforeYear(a) <= DaysBeforeYear(b)
    decreases b - a
  {
    if a < b {
      YearLength(b - 1);
      LaterYear(a, b - 1);
    }
  }

  /** Day numbers order dates as the calendar does, so a date is known by its number. */
  lemma EarlierIsSmaller(a: Date, b: Date)
    requires IsDate(a) && IsDate(b)
    ensures Earlier(a, b) <==> DayNumber(a) < DayNumber(b)
    ensures DayNumber(a) == DayNumber(b) ==> a == b
  {
    hide DaysBeforeYear;
    if Earlier(a, b) {
      EarlierCounts(a, b);
    } else if a != b {
      EarlierCounts(b, a);
    }
  }

  lemma EarlierCounts(a: Date, b: Date)
    requires IsDate(a) && IsDate(b) && Earlier(a, b)
    ensures DayNumber(a) < DayNumber(b)
  {
    hide DaysBeforeYear;
    if a.year == b.year {
      if a.month < b.month {
        LaterMonth(a.year, a.month, b.month);
      }
    } else {
      LaterYear(a.year + 1, b.year);
      YearLength(a.year);
      MonthTable(a.year);
      if a.month < 12 {
        LaterMonth(a.year, a.month, 13);
      }
      if b.month > 1 {
        LaterMonth(b.year, 1, b.month);
      }
    }
  }

  // ---------- The conversion ----------

  const I64_MAX := 0x7fff_ffff_ffff_ffff

  type i64 = x: int | -I64_MAX - 1 <= x <= I64_MAX

  /** Division as machine integers do it, dropping the fraction on either side of zero. */
  function Quotient(a: int, b: int): int
    requires b > 1
  {
    if a >= 0 then a / b else -(-a / b)
  }

  /** The first sum must fit; every later value then fits too. */
  function CivilFromDays(daysSinceEpoch: i64): Date
    requires daysSinceEpoch <= I64_MAX - 719468
  {
    var shiftedDays: i64 := daysSinceEpoch + 719468;
    var dividend: i64 := if shiftedDays >= 0 then shiftedDays else shiftedDays - 146096;
    var era: i64 := Quotient(dividend, 146097);
    var dayOfEra: i64 := shiftedDays - era * 146097;
    var yearOfEra: i64 :=
      Quotient(dayOfEra - Quotient(dayOfEra, 1460) + Quotient(dayOfEra, 36524) - Quotient(dayOfEra, 146096), 365);
    var year: i64 := yearOfEra + era * 400;
    var dayOfYear: i64 := dayOfEra - (365 * yearOfEra + Quotient(yearOfEra, 4) - Quotient(yearOfEra, 100));
    var monthPart: i64 := Quotient(5 * dayOfYear + 2, 153);
    var day: i64 := dayOfYear - Quotient(153 * monthPart + 2, 5) + 1;
    var month: i64 := monthPart + if monthPart < 10 then 3 else -9;
    Date(year + if month <= 2 then 1 else 0, month, day)
  }

  /** Within a century, counted from its first March: the year and how far into it. */
  lemma YearOfCentury(rest: int, century: int)
    requires 0 <= rest < 36524 && 0 <= century < 4
    ensures var y := (rest - (rest + 24 * century) / 1460) / 365;
            && 0 <= y < 100
            && 0 <= rest - (365 * y + y / 4) <= 365
            && (rest - (365 * y + y / 4) == 365 ==> y % 4 == 3 && y < 99)
  {
    var b := (rest + 24 * century) / 1460;
    var y := (rest - b) / 365;
    var g := (rest - b) % 365;
    var h, i := y / 4, y % 4;
    assert rest == 365 * y + g + b;
    assert 0 <= b && 1460 * b <= rest + 24 * century < 1460 * b + 1460;
    assert y == 4 * h + i;
    assert 0 <= y < 100 && 0 <= h <= 24;
    assert b <= h + 1;
    assert h <= b;
    assert b == h + 1 && g == 364 ==> i == 3;
  }

  /** An era is four centuries, and at its very end one day more. */
  lemma SplitEra(century: int, rest: int)
    requires 0 <= rest < 36524 && 0 <= century < 4
    ensures var dayOfEra := 36524 * century + rest;
            && dayOfEra / 36524 == century && dayOfEra / 146096 == 0
            && dayOfEra / 1460 == 25 * century + (rest + 24 * century) / 1460
            && (dayOfEra - dayOfEra / 1460 + century) / 365 ==
               100 * century + (rest - (rest + 24 * century) / 1460) / 365
  {
    var dayOfEra := 36524 * century + rest;
    var b := (rest + 24 * century) / 1460;
    assert dayOfEra / 1460 == 25 * century + b;
    assert dayOfEra - dayOfEra / 1460 + century == 365 * (100 * century) + (rest - b);
  }

  lemma LeapWithinCentury(century: int, year: int)
    requires 0 <= year < 99 && year % 4 == 3
    ensures IsLeap(100 * century + year + 1)
  {
    var next := 100 * century + year + 1;
    assert next % 4 == 0;
    assert next % 100 == year + 1;
  }

  lemma FourHundredIsLeap()
    ensures IsLeap(400)
  {
  }

  lemma CenturyQuotients(century: int, year: int)
    requires 0 <= year < 100
    ensures (100 * century + year) / 4 == 25 * century + year / 4
    ensures (100 * century + year) / 100 == century
  {
  }

  function YearOf(dayOfEra: int): int {
    (dayOfEra - dayOfEra / 1460 + dayOfEra / 36524 - dayOfEra / 146096) / 365
  }

  /** A year that the day falls in, with a 366th day only before a leap day's year ends. */
  predicate FallsIn(dayOfEra: int, year: int) {
    && 0 <= year < 400
    && 0 <= dayOfEra - (365 * year + year / 4 - year / 100) <= 365
    && (dayOfEra - (365 * year + year / 4 - year / 100) == 365 ==> IsLeap(year + 1))
  }

  /** Within an era of 400 years, counted from its first March: the year and how far into it. */
  lemma YearOfEra(dayOfEra: int)
    requires 0 <= dayOfEra < 146097
    ensures FallsIn(dayOfEra, YearOf(dayOfEra))
  {
    hide YearOf, FallsIn;
    if dayOfEra == 146096 {
      LastDayOfEra();
    } else {
      var century, rest := dayOfEra / 36524, dayOfEra % 36524;
      assert dayOfEra == 36524 * century + rest && 0 <= century < 4;
      YearWithinEra(century, rest);
    }
  }

  lemma LastDayOfEra()
    ensures FallsIn(146096, YearOf(146096))
  {
    FourHundredIsLeap();
  }

  lemma YearOfSplit(century: int, rest: int)
    requires 0 <= rest < 36524 && 0 <= century < 4
    ensures YearOf(36524 * century + rest) == 100 * century + (rest - (rest + 24 * century) / 1460) / 365
  {
    SplitEra(century, rest);
  }

  lemma FallsInCentury(century: int, rest: int, year: int)
    requires 0 <= century < 4 && 0 <= year < 100 && 0 <= rest - (365 * year + year / 4) <= 365
    requires rest - (365 * year + year / 4) == 365 ==> IsLeap(100 * century + year + 1)
    ensures FallsIn(36524 * century + rest, 100 * century + year)
  {
    hide IsLeap;
    CenturyQuotients(century, year);
  }

  lemma YearWithinEra(century: int, rest: int)
    requires 0 <= rest < 36524 && 0 <= century < 4
    ensures FallsIn(36524 * century + rest, YearOf(36524 * century + rest))
  {
    hide IsLeap, YearOf, FallsIn;
    YearOfSplit(century, rest);
    YearOfCentury(rest, century);
    var z := (rest - (rest + 24 * century) / 1460) / 365;
    if z % 4 == 3 && z < 99 {
      LeapWithinCentury(century, z);
    }
    FallsInCentury(century, rest, z);
  }

  /** A day of a year that is counted from March. */
  function DateFromMarch(year: int, dayOfYear: int): Date {
    var part := (5 * dayOfYear + 2) / 153;
    var day := dayOfYear - (153 * part + 2) / 5 + 1;
    if part < 10 then Date(year, part + 3, day) else Date(year + 1, part - 9, day)
  }

  lemma MonthOfYear(dayOfYear: int, year: int)
    requires 0 <= dayOfYear <= 365
    requires dayOfYear == 365 ==> IsLeap(year + 1)
    ensures var date := DateFromMarch(year, dayOfYear);
            && IsDate(date)
            && DaysBeforeYear(date.year) + DaysBeforeMonth(date.year, date.month) + date.day - 1 ==
               DaysBeforeYear(year + 1) - 306 + dayOfYear
  {
    hide IsLeap, DaysBeforeYear, DaysBeforeMonth;
    YearLength(year);
    MonthTable(year);
    MonthTable(year + 1);
    FirstMonth(year + 1);
    var part := (5 * dayOfYear + 2) / 153;
    assert 153 * part <= 5 * dayOfYear + 2 < 153 * part + 153;
    assert 0 <= part <= 11;
  }

  lemma FirstMonth(year: int)
    ensures DaysBeforeMonth(year, 1) == 0
  {
  }

  /** Eras repeat: 400 years are 146097 days, and leap years fall alike. */
  lemma EraShift(era: int, year: int)
    ensures DaysBeforeYear(year + era * 400 + 1) == era * 146097 + 365 * year + year / 4 - year / 100 + year / 400
    ensures IsLeap(year + era * 400) == IsLeap(year)
  {
    var shifted := year + era * 400;
    assert shifted / 4 == year / 4 + 100 * era;
    assert shifted / 100 == year / 100 + 4 * era;
    assert shifted / 400 == year / 400 + era;
  }

  function EraOf(shiftedDays: int): (era: int)
    ensures 0 <= shiftedDays - era * 146097 < 146097
  {
    Quotient(if shiftedDays >= 0 then shiftedDays else shiftedDays - 146096, 146097)
  }

  /** The date that an era and a day of it come to. */
  function DateInEra(era: int, dayOfEra: int): Date {
    var y := YearOf(dayOfEra);
    DateFromMarch(y + era * 400, dayOfEra - (365 * y + y / 4 - y / 100))
  }

  lemma QuotientOfNat(a: nat, b: int)
    requires b > 1
    ensures Quotient(a, b) == a / b
  {
  }

  lemma YearQuotient(dayOfEra: nat)
    requires dayOfEra < 146097
    ensures Quotient(dayOfEra - Quotient(dayOfEra, 1460) + Quotient(dayOfEra, 36524) - Quotient(dayOfEra, 146096), 365)
         == YearOf(dayOfEra)
  {
    hide Quotient;
    QuotientOfNat(dayOfEra, 1460);
    QuotientOfNat(dayOfEra, 36524);
    QuotientOfNat(dayOfEra, 146096);
    NumeratorIsNat(dayOfEra);
    QuotientOfNat(dayOfEra - dayOfEra / 1460 + dayOfEra / 36524 - dayOfEra / 146096, 365);
  }

  lemma MonthQuotients(dayOfYear: nat)
    requires dayOfYear <= 365
    ensures var part := (5 * dayOfYear + 2) / 153;
            && Quotient(5 * dayOfYear + 2, 153) == part
            && Quotient(153 * part + 2, 5) == (153 * part + 2) / 5
  {
    hide Quotient;
    QuotientOfNat(5 * dayOfYear + 2, 153);
    QuotientOfNat(153 * ((5 * dayOfYear + 2) / 153) + 2, 5);
  }

  /** Past the division into eras nothing is negative, so how machine division rounds no longer matters. */
  lemma CivilByEra(n: i64)
    requires n <= I64_MAX - 719468
    ensures CivilFromDays(n) == DateInEra(EraOf(n + 719468), n + 719468 - EraOf(n + 719468) * 146097)
  {
    hide IsLeap, Quotient, YearOf;
    var dayOfEra := n + 719468 - EraOf(n + 719468) * 146097;
    YearQuotient(dayOfEra);
    YearOfEra(dayOfEra);
    var y := YearOf(dayOfEra);
    QuotientOfNat(y, 4);
    QuotientOfNat(y, 100);
    MonthQuotients(dayOfEra - (365 * y + y / 4 - y / 100));
  }

  lemma NumeratorIsNat(dayOfEra: nat)
    requires dayOfEra < 146097
    ensures dayOfEra - dayOfEra / 1460 + dayOfEra / 36524 - dayOfEra / 146096 >= 0
  {
  }

  lemma DateInEraCounts(era: int, dayOfEra: int)
    requires 0 <= dayOfEra < 146097
    ensures IsDate(DateInEra(era, dayOfEra))
    ensures DayNumber(DateInEra(era, dayOfEra)) == era * 146097 + dayOfEra - 719468
  {
    hide IsLeap, DaysBeforeYear, DaysBeforeMonth, DateFromMarch;
    YearOfEra(dayOfEra);
    var y := YearOf(dayOfEra);
    EraShift(era, y);
    EraShift(era, y + 1);
    MonthOfYear(dayOfEra - (365 * y + y / 4 - y / 100), y + era * 400);
    Epoch();
  }

  /** Every day number whose first sum fits gives a date of the calendar, and counting to that date gives it back. */
  lemma CivilIsInverse(n: i64)
    requires n <= I64_MAX - 719468
    ensures IsDate(CivilFromDays(n))
    ensures DayNumber(CivilFromDays(n)) == n
  {
    hide CivilFromDays, DateInEra, DayNumber;
    CivilByEra(n);
    DateInEraCounts(EraOf(n + 719468), n + 719468 - EraOf(n + 719468) * 146097);
  }

  lemma Epoch()
    ensures DaysBeforeYear(1970) == 719162
  {
  }

  /** Starting from a date and counting its days leads back to that date. */
  lemma DayNumberIsInverse(date: Date)
    requires IsDate(date) && -I64_MAX - 1 <= DayNumber(date) <= I64_MAX - 719468
    ensures CivilFromDays(DayNumber(date)) == date
  {
    hide CivilFromDays, DayNumber;
    CivilIsInverse(DayNumber(date));
    EarlierIsSmaller(CivilFromDays(DayNumber(date)), date);
  }

  /** The next number is the next day of the calendar, over month ends, leap days and year ends. */
  lemma NextNumberIsNextDay(n: i64)
    requires n < I64_MAX - 719468
    ensures CivilFromDays(n + 1) == Successor(CivilFromDays(n))
  {
    hide CivilFromDays, DayNumber;
    CivilIsInverse(n);
    CountsEveryDay(CivilFromDays(n));
    DayNumberIsInverse(Successor(CivilFromDays(n)));
  }

  /** Later numbers are later dates. */
  lemma NumbersFollowDates(m: i64, n: i64)
    requires m < n <= I64_MAX - 719468
    ensures Earlier(CivilFromDays(m), CivilFromDays(n))
  {
    hide CivilFromDays, DayNumber;
    CivilIsInverse(m);
    CivilIsInverse(n);
    EarlierIsSmaller(CivilFromDays(m), CivilFromDays(n));
  }

  /** Seconds since the epoch as an unsigned 64-bit number: every clock reading has a date, never before 1970. */
  lemma EveryReadingHasADate(totalSeconds: nat)
    requires totalSeconds < 0x1_0000_0000_0000_0000
    ensures totalSeconds / 86400 <= I64_MAX - 719468
    ensures !Earlier(CivilFromDays(totalSeconds / 86400), Date(1970, 1, 1))
  {
    hide CivilFromDays, DayNumber;
    var n := totalSeconds / 86400;
    CivilIsInverse(n);
    CountsEveryDay(Date(1970, 1, 1));
    EarlierIsSmaller(CivilFromDays(n), Date(1970, 1, 1));
  }
}
