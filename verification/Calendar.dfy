/**
  * Calendar conversions: the timestamp of the metal logger (native/c/zlogger_metal.c), which
  * counts forward from 1970, and the year-and-day dates of a data set label (native/c/zds.cpp).
  */
module Calendar {
  import opened Common

  // ---------- the Gregorian calendar ----------

  predicate IsLeap(year: nat) { year % 4 == 0 && (year % 100 != 0 || year % 400 == 0) }

  function YearLength(year: nat): nat { if IsLeap(year) then 366 else 365 }

  function MonthLength(year: nat, month: nat): nat
    requires 1 <= month <= 12
  {
    if month == 2 then if IsLeap(year) then 29 else 28
    else if month in {4, 6, 9, 11} then 30
    else 31
  }

  function DaysBeforeMonth(year: nat, month: nat): nat
    requires 1 <= month <= 13
  {
    if month == 1 then 0 else DaysBeforeMonth(year, month - 1) + MonthLength(year, month - 1)
  }

  datatype Date = Date(year: nat, month: nat, day: nat) {
    predicate Valid() { 1 <= month <= 12 && 1 <= day <= MonthLength(year, month) }
  }

  /** Leap years before `year`. */
  function Leaps(year: nat): int { (year - 1) / 4 - (year - 1) / 100 + (year - 1) / 400 }

  const EPOCH_YEAR := 1970

  /** Days from 1970-01-01 to the first of January of `year`, in closed form. */
  function DaysBeforeYear(year: nat): int {
    365 * (year - EPOCH_YEAR) + Leaps(year) - Leaps(EPOCH_YEAR)
  }

  /** The number of a date, counting 1970-01-01 as day 0. */
  function DayNumber(d: Date): int
    requires d.Valid()
  {
    DaysBeforeYear(d.year) + DaysBeforeMonth(d.year, d.month) + d.day - 1
  }

  lemma {:induction false} NextYear(year: nat)
    requires year >= 1
    ensures DaysBeforeYear(year + 1) == DaysBeforeYear(year) + YearLength(year)
  {
    Steps(year, 4);
    Steps(year, 100);
    Steps(year, 400);
    if year % 400 == 0 {
      assert year % 4 == 0 && year % 100 == 0;
    } else if year % 100 == 0 {
      assert year % 4 == 0;
    }
  }

  lemma {:induction false} Steps(n: nat, k: nat)
    requires n >= 1 && k in {4, 100, 400}
    ensures n / k - (n - 1) / k == if n % k == 0 then 1 else 0
  {
  }

  lemma {:induction false} MonthsFillTheYear(year: nat)
    ensures DaysBeforeMonth(year, 13) == YearLength(year)
    ensures forall m :: 1 <= m <= 12 ==> DaysBeforeMonth(year, m) + MonthLength(year, m) <= YearLength(year)
  {
    assert DaysBeforeMonth(year, 2) == 31;
    assert DaysBeforeMonth(year, 3) == 31 + MonthLength(year, 2);
    assert DaysBeforeMonth(year, 5) == 92 + MonthLength(year, 2);
    assert DaysBeforeMonth(year, 7) == 153 + MonthLength(year, 2);
    assert DaysBeforeMonth(year, 9) == 215 + MonthLength(year, 2);
    assert DaysBeforeMonth(year, 11) == 276 + MonthLength(year, 2);
    assert DaysBeforeMonth(year, 13) == 337 + MonthLength(year, 2);
    forall m | 1 <= m <= 12
      ensures DaysBeforeMonth(year, m) + MonthLength(year, m) <= YearLength(year)
    {
      LaterMonths(year, m + 1, 13);
    }
  }

  lemma {:induction false} LaterMonths(year: nat, m: nat, n: nat)
    requires 1 <= m <= n <= 13
    ensures DaysBeforeMonth(year, m) <= DaysBeforeMonth(year, n)
    ensures m < n ==> DaysBeforeMonth(year, m) + MonthLength(year, m) <= DaysBeforeMonth(year, n)
    decreases n - m
  {
    if m < n {
      LaterMonths(year, m + 1, n);
    }
  }

  lemma {:induction false} LaterYears(a: nat, b: nat)
    requires 1 <= a < b
    ensures DaysBeforeYear(a) + YearLength(a) <= DaysBeforeYear(b)
    decreases b - a
  {
    NextYear(a);
    if a + 1 < b {
      LaterYears(a + 1, b);
    }
  }

  /** No two dates share a day number, so a day number names one date. */
  lemma {:induction false} DayNumberIsInjective(d: Date, e: Date)
    requires d.Valid() && e.Valid() && d.year >= 1 && e.year >= 1
    requires DayNumber(d) == DayNumber(e)
    ensures d == e
  {
    MonthsFillTheYear(d.year);
    MonthsFillTheYear(e.year);
    if d.year < e.year {
      LaterYears(d.year, e.year);
    } else if e.year < d.year {
      LaterYears(e.year, d.year);
    } else {
      SameYear(d, e);
    }
  }

  lemma {:induction false} SameYear(d: Date, e: Date)
    requires d.Valid() && e.Valid() && d.year == e.year && DayNumber(d) == DayNumber(e)
    ensures d == e
  {
    if d.month < e.month {
      LaterMonths(d.year, d.month, e.month);
    } else if e.month < d.month {
      LaterMonths(d.year, e.month, d.month);
    }
  }

  // ---------- the logger's timestamp ----------

  const EPOCH_DIFF_SECONDS := 2208988800
  const SECONDS_PER_DAY := 86400
  const LAST_SECOND := 4000000000

  /** Seconds since 1970 of a TOD clock value: bit 51 counts microseconds since 1900. */
  function StckToUnixSeconds(stck: nat): (s: nat)
    requires stck < 0x1_0000_0000_0000_0000
  {
    var seconds := stck / 0x1000 / 1000000;
    if seconds >= EPOCH_DIFF_SECONDS then seconds - EPOCH_DIFF_SECONDS else 0
  }

  /** The epoch difference is the 70 years from 1900, 17 of them leap years. */
  lemma {:induction false} EpochDifference()
    ensures EPOCH_DIFF_SECONDS == (0 - DaysBeforeYear(1900)) * SECONDS_PER_DAY
  {
  }

  /** The year and month loops: the date of every day count. */
  method DateOfDays(days: nat) returns (date: Date)
    ensures date.Valid() && DayNumber(date) == days && date.year >= EPOCH_YEAR
  {
    var year: nat := EPOCH_YEAR;
    var remainingDays: nat := days;
    while true
      invariant year >= EPOCH_YEAR
      invariant DaysBeforeYear(year) + remainingDays == days
      decreases remainingDays
    {
      var daysInYear := 365;
      if year % 4 == 0 && (year % 100 != 0 || year % 400 == 0) {
        daysInYear := 366;
      }
      if remainingDays < daysInYear {
        break;
      }
      NextYear(year);
      remainingDays := remainingDays - daysInYear;
      year := year + 1;
    }
    MonthsFillTheYear(year);
    var daysInMonth := [31, 28, 31, 30, 31, 30, 31, 31, 30, 31, 30, 31];
    if year % 4 == 0 && (year % 100 != 0 || year % 400 == 0) {
      daysInMonth := daysInMonth[1 := 29];
    }
    assert forall m :: 0 <= m < 12 ==> daysInMonth[m] == MonthLength(year, m + 1);
    var day: nat := remainingDays + 1;
    var monthIndex: nat := 0;
    while monthIndex < 12 && day > daysInMonth[monthIndex]
      invariant monthIndex <= 12 && day >= 1
      invariant DaysBeforeMonth(year, monthIndex + 1) + day == remainingDays + 1
      decreases 12 - monthIndex
    {
      day := day - daysInMonth[monthIndex];
      monthIndex := monthIndex + 1;
    }
    assert monthIndex < 12;
    var month;
    month, day := Clamp(monthIndex + 1, day);
    date := Date(year, month, day);
  }

  /** The safety bounds of the source; on a real date they change nothing. */
  method Clamp(month0: nat, day0: nat) returns (month: nat, day: nat)
    ensures 1 <= month <= 12 && 1 <= day <= 31
    ensures 1 <= month0 <= 12 ==> month == month0
    ensures 1 <= day0 <= 31 ==> day == day0
  {
    month, day := month0, day0;
    if month < 1 {
      month := 1;
    }
    if month > 12 {
      month := 12;
    }
    if day < 1 {
      day := 1;
    }
    if day > 31 {
      day := 31;
    }
  }

  datatype Timestamp = Raw(stck: nat) | At(date: Date, hour: nat, minute: nat, second: nat)

  /** ZLGTIME: the raw clock value when the time is out of the supported range. */
  method LoggerTime(stck: nat) returns (t: Timestamp)
    requires stck < 0x1_0000_0000_0000_0000
    ensures t.Raw? <==> StckToUnixSeconds(stck) == 0 || StckToUnixSeconds(stck) > LAST_SECOND
    ensures t.Raw? ==> t.stck == stck
    ensures t.At? ==>
              && t.date.Valid() && t.hour < 24 && t.minute < 60 && t.second < 60
              && DayNumber(t.date) * SECONDS_PER_DAY + t.hour * 3600 + t.minute * 60 + t.second ==
                 StckToUnixSeconds(stck)
  {
    var unixSeconds := StckToUnixSeconds(stck);
    if unixSeconds == 0 || unixSeconds > LAST_SECOND {
      return Raw(stck);
    }
    var days := unixSeconds / SECONDS_PER_DAY;
    var remainingSeconds := unixSeconds % SECONDS_PER_DAY;
    var date := DateOfDays(days);
    var hour := remainingSeconds / 3600;
    remainingSeconds := remainingSeconds % 3600;
    var minute := remainingSeconds / 60;
    var second := remainingSeconds % 60;
    t := At(date, hour, minute, second);
  }

  // ---------- dates of a data set label ----------

  /** The table the loop compares with: February always has 28 days in it. */
  function TableLength(i: nat): nat
    requires i < 12
  {
    if i == 1 then 28 else if i in {3, 5, 8, 10} then 30 else 31
  }

  /** Month and day as the loop leaves them, started at month index `i`. */
  function LabelMonth(year: nat, i: nat, day: int): (int, int)
    requires i <= 12
    decreases 12 - i
  {
    if i == 12 || day <= TableLength(i) then (i + 1, day)
    else LabelMonth(year, i + 1, day - MonthLength(year, i + 1))
  }

  /** load_date_from_dscb: `None` where the date is left empty. */
  method LoadDate(dateIn: seq<byte>, isExpirationDate: bool) returns (date: Option<(int, int, int)>)
    requires |dateIn| == 3
    ensures var year, dayOfYear := 1900 + dateIn[0] as int, dateIn[1] as int * 256 + dateIn[2] as int;
            date == if dateIn == [0, 0, 0] || (isExpirationDate && year == 1999 && dayOfYear == 365) then None
                    else Some((year, LabelMonth(year, 0, dayOfYear).0, LabelMonth(year, 0, dayOfYear).1))
  {
    if dateIn[0] == 0 && dateIn[1] == 0 && dateIn[2] == 0 {
      return None;
    }
    var year := 1900 + dateIn[0] as int;
    var dayOfYear := dateIn[1] as int * 256 + dateIn[2] as int;
    if isExpirationDate && year == 1999 && dayOfYear == 365 {
      return None;
    }
    var isLeap := (year % 4 == 0 && year % 100 != 0) || year % 400 == 0;
    assert isLeap == IsLeap(year);
    var month, day := MonthAndDay(year, dayOfYear, isLeap);
    date := Some((year, month, day));
  }

  lemma {:induction false} TableAndCalendar(year: nat, i: nat)
    requires i < 12
    ensures MonthLength(year, i + 1) == if i == 1 && IsLeap(year) then 29 else TableLength(i)
  {
  }

  /** The days of month `i`, from zero, taken off. */
  method LessOneMonth(year: nat, i: nat, day: int, isLeap: bool) returns (rest: int)
    requires isLeap == IsLeap(year) && i < 12 && day > TableLength(i)
    ensures LabelMonth(year, i, day) == LabelMonth(year, i + 1, rest)
  {
    TableAndCalendar(year, i);
    var daysThisMonth := TableLength(i);
    if i == 1 && isLeap {
      daysThisMonth := 29;
    }
    rest := day - daysThisMonth;
  }

  method MonthAndDay(year: nat, dayOfYear: nat, isLeap: bool) returns (month: int, day: int)
    requires isLeap == IsLeap(year)
    ensures (month, day) == LabelMonth(year, 0, dayOfYear)
  {
    month, day := 1, dayOfYear;
    ghost var whole := LabelMonth(year, 0, dayOfYear);
    var i := 0;
    while i < 12 && day > TableLength(i)
      invariant 0 <= i <= 12 && month == i + 1
      invariant whole == LabelMonth(year, i, day)
    {
      day := LessOneMonth(year, i, day, isLeap);
      month := month + 1;
      i := i + 1;
    }
  }

  /** The label date is the date of that day of the year. */
  ghost predicate NamesDayOfYear(year: nat, dayOfYear: nat, month: int, day: int) {
    && 1 <= month <= 12 && 1 <= day
    && Date(year, month, day).Valid()
    && DaysBeforeMonth(year, month) + day == dayOfYear
  }

  lemma {:induction false} LabelMonthFrom(year: nat, i: nat, day: int)
    requires 2 <= i < 12 && 1 <= day <= YearLength(year) - DaysBeforeMonth(year, i + 1)
    ensures var (m, d) := LabelMonth(year, i, day);
            1 <= m <= 12 && Date(year, m, if d < 0 then 0 else d).Valid() &&
            DaysBeforeMonth(year, m) + d == DaysBeforeMonth(year, i + 1) + day
    decreases 12 - i
  {
    if day > TableLength(i) {
      if i == 11 {
        MonthsFillTheYear(year);
      } else {
        LabelMonthFrom(year, i + 1, day - MonthLength(year, i + 1));
      }
    }
  }

  /** Right for every day of every year but one: the 29th of February. */
  lemma {:induction false} LabelDateExactly(year: nat, dayOfYear: nat)
    requires 1 <= dayOfYear <= YearLength(year)
    ensures NamesDayOfYear(year, dayOfYear, LabelMonth(year, 0, dayOfYear).0, LabelMonth(year, 0, dayOfYear).1) <==>
            !(IsLeap(year) && dayOfYear == 60)
  {
    assert DaysBeforeMonth(year, 2) == 31 && DaysBeforeMonth(year, 3) == 31 + MonthLength(year, 2);
    if dayOfYear > 31 && dayOfYear - 31 > 28 {
      var rest := dayOfYear - 31 - MonthLength(year, 2);
      assert LabelMonth(year, 0, dayOfYear) == LabelMonth(year, 2, rest);
      if rest >= 1 {
        LabelMonthFrom(year, 2, rest);
      }
    }
  }

  /** The 29th of February of 2024 comes out as day 0 of March. */
  lemma {:induction false} LeapDayOfLabel()
    ensures LabelMonth(2024, 0, 60) == (3, 0)
  {
  }
}
