/**
  The Gregorian calendar arithmetic of `static_files.rs`: the closed-form conversions between a
  civil date and a day number counted from 1970-01-01, and the naive calendar they must agree with.
  Years come from a `u32` and day numbers from a `u64` divided by 86400, so no step of the
  original's `i64` arithmetic can overflow and unbounded integers are exact here.
 */
module Calendar {
  import opened Wrappers

  datatype Date = Date(year: int, month: int, day: int)

  // ---- The naive calendar ----

  predicate IsLeap(y: int) {
    y % 4 == 0 && (y % 100 != 0 || y % 400 == 0)
  }

  function YearLength(y: int): int {
    if IsLeap(y) then 366 else 365
  }

  function MonthLength(y: int, m: int): int {
    if m == 2 then (if IsLeap(y) then 29 else 28)
    else if m == 4 || m == 6 || m == 9 || m == 11 then 30
    else 31
  }

  predicate ValidDate(t: Date) {
    1 <= t.month <= 12 && 1 <= t.day <= MonthLength(t.year, t.month)
  }

  /** The day after `t`. */
  function NextDay(t: Date): Date {
    if t.day < MonthLength(t.year, t.month) then Date(t.year, t.month, t.day + 1)
    else if t.month < 12 then Date(t.year, t.month + 1, 1)
    else Date(t.year + 1, 1, 1)
  }

  /** The date `n` days after 1970-01-01, found by counting. */
  function DateAfter(n: nat): Date {
    if n == 0 then Date(1970, 1, 1) else NextDay(DateAfter(n - 1))
  }

  /** Days in the years 1970, ..., y - 1. */
  function DaysBeforeYear(y: int): int
    requires 1970 <= y
  {
    if y == 1970 then 0 else DaysBeforeYear(y - 1) + YearLength(y - 1)
  }

  /** Days in the months 1, ..., m - 1 of year `y`. */
  function DaysBeforeMonth(y: int, m: int): int
    requires 1 <= m <= 12
  {
    if m == 1 then 0 else DaysBeforeMonth(y, m - 1) + MonthLength(y, m - 1)
  }

  /** Days from 1970-01-01 to `t`: whole years, then whole months, then days. */
  function NaiveDays(t: Date): int
    requires 1970 <= t.year && 1 <= t.month <= 12
  {
    DaysBeforeYear(t.year) + DaysBeforeMonth(t.year, t.month) + t.day - 1
  }

  /** Calendar order. */
  predicate Before(a: Date, b: Date) {
    a.year < b.year || (a.year == b.year && (a.month < b.month || (a.month == b.month && a.day < b.day)))
  }

  // ---- The closed forms ----

  function DaysSinceEpoch(year: int, month: int, day: int): Option<nat> {
    var m := if month <= 2 then month + 9 else month - 3;
    var y := if month <= 2 then year - 1 else year;
    var era := y / 400;
    var yoe := y % 400;
    var doy := (153 * m + 2) / 5 + day - 1;
    var doe := yoe * 365 + yoe / 4 - yoe / 100 + doy;
    var result := era * 146097 + doe - 719468;
    if result < 0 then None else Some(result)
  }

  function UnixDaysToCivil(days: int): Date {
    var z := days + 719468;
    var era := z / 146097;
    var doe := z % 146097;
    var yoe := EstimatedYear(doe);
    var y := yoe + era * 400;
    var doy := doe - (365 * yoe + yoe / 4 - yoe / 100);
    var mp := (5 * doy + 2) / 153;
    var d := doy - (153 * mp + 2) / 5 + 1;
    var m := if mp < 10 then mp + 3 else mp - 9;
    Date(if m <= 2 then y + 1 else y, m, d)
  }

  // ---- The day count ----

  /** Days from 0000-03-01 to March 1 of year `y`. */
  function MarchFirst(y: int): int {
    365 * y + y / 4 - y / 100 + y / 400
  }

  /** Splitting a year into 400-year era and year-of-era loses nothing. */
  lemma EraSplit(y: int)
    ensures y / 400 * 146097 + (y % 400 * 365 + y % 400 / 4 - y % 400 / 100) == MarchFirst(y)
  {
    var era, yoe := y / 400, y % 400;
    assert y == 400 * era + yoe;
    assert y / 4 == 100 * era + yoe / 4;
    assert y / 100 == 4 * era + yoe / 100;
  }

  lemma DivStep(y: int, n: int)
    requires 0 < n
    ensures y / n - (y - 1) / n == if y % n == 0 then 1 else 0
  {
    var q, r := y / n, y % n;
    assert y == q * n + r;
    if r == 0 {
      assert y - 1 == (q - 1) * n + (n - 1);
      UniqueQuotient(y - 1, n, q - 1, n - 1);
    } else {
      UniqueQuotient(y - 1, n, q, r - 1);
    }
  }

  lemma MarchFirstStep(y: int)
    ensures MarchFirst(y) - MarchFirst(y - 1) == YearLength(y)
  {
    DivStep(y, 4);
    DivStep(y, 100);
    DivStep(y, 400);
    assert y % 400 == 0 ==> y % 100 == 0;
    assert y % 100 == 0 ==> y % 4 == 0;
  }

  lemma {:induction false} DaysBeforeYearClosed(y: int)
    requires 1970 <= y
    ensures DaysBeforeYear(y) == MarchFirst(y - 1) + 306 - 719468
  {
    if y == 1970 {
      assert MarchFirst(1969) == 719162;
    } else {
      DaysBeforeYearClosed(y - 1);
      MarchFirstStep(y - 1);
    }
  }

  /** The 153-day trick: month lengths from March on, summed by one linear formula. */
  lemma DaysBeforeMonthClosed(y: int, m: int)
    requires 1 <= m <= 12
    ensures DaysBeforeMonth(y, m) ==
            if m <= 2 then (153 * (m + 9) + 2) / 5 - 306
            else YearLength(y) - 306 + (153 * (m - 3) + 2) / 5
  {
    assert DaysBeforeMonth(y, 1) == 0;
    assert DaysBeforeMonth(y, 2) == 31;
    var f := MonthLength(y, 2);
    assert DaysBeforeMonth(y, 3) == 31 + f;
    assert DaysBeforeMonth(y, 4) == 62 + f;
    assert DaysBeforeMonth(y, 5) == 92 + f;
    assert DaysBeforeMonth(y, 6) == 123 + f;
    assert DaysBeforeMonth(y, 7) == 153 + f;
    assert DaysBeforeMonth(y, 8) == 184 + f;
    assert DaysBeforeMonth(y, 9) == 215 + f;
    assert DaysBeforeMonth(y, 10) == 245 + f;
    assert DaysBeforeMonth(y, 11) == 276 + f;
    assert DaysBeforeMonth(y, 12) == 306 + f;
  }

  /** From 1970 on, the closed form is the naive day count. Any day of the month is allowed, so the
      identity also says how a day past the end of its month is read. */
  lemma ClosedFormIsNaiveCount(t: Date)
    requires 1970 <= t.year && 1 <= t.month <= 12 && 1 <= t.day
    ensures DaysSinceEpoch(t.year, t.month, t.day) == Some(NaiveDays(t))
  {
    DaysBeforeYearClosed(t.year);
    DaysBeforeMonthClosed(t.year, t.month);
    EraSplit(if t.month <= 2 then t.year - 1 else t.year);
    MarchFirstStep(t.year);
    NaiveDaysNonNegative(t);
  }

  lemma {:induction false} NaiveDaysNonNegative(t: Date)
    requires 1970 <= t.year && 1 <= t.month <= 12 && 1 <= t.day
    ensures 0 <= DaysBeforeMonth(t.year, t.month) && 0 <= NaiveDays(t)
    decreases t.year, t.month
  {
    if 1 < t.month {
      NaiveDaysNonNegative(t.(month := t.month - 1));
    } else if 1970 < t.year {
      NaiveDaysNonNegative(t.(year := t.year - 1));
    }
  }

  // ---- Counting one day at a time ----

  lemma NextDayCounts(t: Date)
    requires ValidDate(t) && 1970 <= t.year
    ensures ValidDate(NextDay(t)) && 1970 <= NextDay(t).year
    ensures NaiveDays(NextDay(t)) == NaiveDays(t) + 1
  {
    DaysBeforeMonthClosed(t.year, 12);
  }

  lemma {:induction false} DateAfterCounts(n: nat)
    ensures ValidDate(DateAfter(n)) && 1970 <= DateAfter(n).year
    ensures NaiveDays(DateAfter(n)) == n
  {
    if n > 0 {
      DateAfterCounts(n - 1);
      NextDayCounts(DateAfter(n - 1));
    }
  }

  // ---- The inverse ----

  /** The estimate of the year of era, made before leap days are accounted for. */
  function EstimatedYear(doe: int): int {
    (doe - doe / 1460 + doe / 36524 - doe / 146096) / 365
  }

  /** Day `d` of year `b` of four-year cycle `a` of century `c` is recognised by the estimate. */
  lemma EstimateFromParts(c: int, a: int, b: int, d: int)
    requires 0 <= c < 4 && 0 <= a < 25 && 0 <= b < 4
    requires 0 <= d < 365 || (d == 365 && b == 3 && (a < 24 || c == 3))
    ensures EstimatedYear(36524 * c + 1461 * a + 365 * b + d) == 100 * c + 4 * a + b
  {
    var doe := 36524 * c + 1461 * a + 365 * b + d;
    var slack := 24 * c + a + 365 * b + d;
    var e := if slack < 1460 then 0 else 1;
    assert doe == 1460 * (25 * c + a) + slack;
    assert doe / 1460 == 25 * c + a + e;
    var f := if doe == 146096 then 1 else 0;
    assert doe / 146096 == f;
    assert doe / 36524 == c + f;
    assert 0 <= d - e < 365;
    assert doe - doe / 1460 + doe / 36524 - doe / 146096 == 365 * (100 * c + 4 * a + b) + (d - e);
  }

  /** The year-of-era estimate is exact: `doe` lies in the year the formula picks. */
  lemma YearOfEra(doe: int)
    requires 0 <= doe < 146097
    ensures var yoe := EstimatedYear(doe);
            && 0 <= yoe < 400
            && 0 <= doe - (365 * yoe + yoe / 4 - yoe / 100) < YearLength(yoe + 1)
  {
    var c := if doe / 36524 < 4 then doe / 36524 else 3;
    var r1 := doe - 36524 * c;
    var a := r1 / 1461;
    var r2 := r1 - 1461 * a;
    var b := if r2 / 365 < 4 then r2 / 365 else 3;
    var d := r2 - 365 * b;
    EstimateFromParts(c, a, b, d);
    hide EstimatedYear;
    DayOfParts(c, a, b, d);
  }

  lemma DayOfParts(c: int, a: int, b: int, d: int)
    requires 0 <= c < 4 && 0 <= a < 25 && 0 <= b < 4
    requires 0 <= d < 365 || (d == 365 && b == 3 && (a < 24 || c == 3))
    ensures var yoe := 100 * c + 4 * a + b;
            && 0 <= yoe < 400
            && 36524 * c + 1461 * a + 365 * b + d == 365 * yoe + yoe / 4 - yoe / 100 + d
            && 0 <= d < YearLength(yoe + 1)
  {
    var yoe := 100 * c + 4 * a + b;
    assert yoe / 4 == 25 * c + a;
    assert yoe / 100 == c;
    if d == 365 {
      assert (yoe + 1) % 4 == 0;
      assert (yoe + 1) % 100 == 0 <==> a == 24;
    }
  }

  lemma MonthFromDay(doy: int)
    requires 0 <= doy < 366
    ensures var mp := (5 * doy + 2) / 153;
            0 <= mp < 12 && (153 * mp + 2) / 5 <= doy < (153 * (mp + 1) + 2) / 5
  {
  }

  lemma LeapByEra(y: int, era: int)
    ensures IsLeap(y + era * 400) == IsLeap(y)
  {
    ModShift(y, 100 * era, 4);
    ModShift(y, 4 * era, 100);
    ModShift(y, era, 400);
  }

  lemma ModShift(x: int, k: int, n: int)
    requires 0 < n
    ensures (x + k * n) % n == x % n
  {
    var q := x / n;
    assert x + k * n == (q + k) * n + x % n;
    UniqueQuotient(x + k * n, n, q + k, x % n);
  }

  lemma UniqueQuotient(x: int, n: int, q: int, r: int)
    requires 0 < n && 0 <= r < n && x == q * n + r
    ensures x / n == q && x % n == r
  {
    var d := x / n - q;
    assert d * n == r - x % n;
    assert d <= -1 ==> d * n <= -n;
    assert d >= 1 ==> d * n >= n;
  }

  /** Day `doy` of the year that starts on March 1 of `y`. */
  function CivilOfMarchDay(y: int, doy: int): Date {
    var mp := (5 * doy + 2) / 153;
    var m := if mp < 10 then mp + 3 else mp - 9;
    Date(if m <= 2 then y + 1 else y, m, doy - (153 * mp + 2) / 5 + 1)
  }

  lemma MarchDayIsValid(y: int, doy: int)
    requires 0 <= doy < YearLength(y + 1)
    ensures ValidDate(CivilOfMarchDay(y, doy))
    ensures var t := CivilOfMarchDay(y, doy);
            && (if t.month <= 2 then t.year - 1 else t.year) == y
            && (153 * (if t.month <= 2 then t.month + 9 else t.month - 3) + 2) / 5 + t.day - 1 == doy
  {
    MonthFromDay(doy);
    var mp := (5 * doy + 2) / 153;
    assert mp == 0 || mp == 1 || mp == 2 || mp == 3 || mp == 4 || mp == 5
        || mp == 6 || mp == 7 || mp == 8 || mp == 9 || mp == 10 || mp == 11;
  }

  /** The year and day that `UnixDaysToCivil` works with are those of the calendar that starts in March. */
  lemma MarchCalendar(days: int) returns (y: int, doy: int)
    ensures UnixDaysToCivil(days) == CivilOfMarchDay(y, doy)
    ensures MarchFirst(y) + doy == days + 719468
    ensures 0 <= doy < YearLength(y + 1)
  {
    hide UnixDaysToCivil, CivilOfMarchDay, EstimatedYear, YearLength;
    var z := days + 719468;
    var era, doe := z / 146097, z % 146097;
    InTheMarchCalendar(days);
    YearOfEra(doe);
    var yoe := EstimatedYear(doe);
    doy := doe - (365 * yoe + yoe / 4 - yoe / 100);
    y := yoe + era * 400;
    UniqueQuotient(y, 400, era, yoe);
    EraSplit(y);
    LengthByEra(yoe + 1, era);
  }

  lemma InTheMarchCalendar(days: int)
    ensures var era, doe := (days + 719468) / 146097, (days + 719468) % 146097;
            var yoe := EstimatedYear(doe);
            UnixDaysToCivil(days) == CivilOfMarchDay(yoe + era * 400, doe - (365 * yoe + yoe / 4 - yoe / 100))
  {
    hide EstimatedYear;
  }

  lemma LengthByEra(y: int, era: int)
    ensures YearLength(y + era * 400) == YearLength(y)
  {
    LeapByEra(y, era);
  }

  lemma ClosedFormOfMarchDay(y: int, doy: int)
    requires 0 <= doy < YearLength(y + 1)
    ensures var t := CivilOfMarchDay(y, doy);
            var n := MarchFirst(y) + doy - 719468;
            DaysSinceEpoch(t.year, t.month, t.day) == if n < 0 then None else Some(n)
  {
    MarchDayIsValid(y, doy);
    EraSplit(y);
  }

  /** The inverse conversion always yields a real date, and the closed form takes it back. */
  lemma CivilIsValid(days: nat)
    ensures ValidDate(UnixDaysToCivil(days)) && 1970 <= UnixDaysToCivil(days).year
    ensures var t := UnixDaysToCivil(days);
            DaysSinceEpoch(t.year, t.month, t.day) == Some(days)
  {
    var y, doy := MarchCalendar(days);
    MarchDayIsValid(y, doy);
    FromEpochOn(y, doy, days);
    ClosedFormOfMarchDay(y, doy);
  }

  /** Day numbers below zero are the dates before 1970. */
  lemma CivilBeforeEpoch(days: int)
    requires days < 0
    ensures ValidDate(UnixDaysToCivil(days)) && UnixDaysToCivil(days).year < 1970
  {
    var y, doy := MarchCalendar(days);
    MarchDayIsValid(y, doy);
    BeforeEpoch(y, doy);
  }

  lemma BeforeEpoch(y: int, doy: int)
    requires MarchFirst(y) + doy < 719468
    requires 0 <= doy < YearLength(y + 1)
    ensures CivilOfMarchDay(y, doy).year < 1970
  {
    assert y <= 1969;
    if y == 1969 {
      assert MarchFirst(1969) == 719162;
      assert doy < 306;
    }
  }

  lemma FromEpochOn(y: int, doy: int, days: nat)
    requires MarchFirst(y) + doy == days + 719468
    requires 0 <= doy < YearLength(y + 1)
    ensures 1970 <= CivilOfMarchDay(y, doy).year
  {
  }

  lemma {:induction false} BeforeYears(y: int, z: int)
    requires 1970 <= y <= z
    ensures DaysBeforeYear(y) + 365 * (z - y) <= DaysBeforeYear(z)
    ensures y < z ==> DaysBeforeYear(y) + YearLength(y) <= DaysBeforeYear(z)
    decreases z - y
  {
    if y < z {
      BeforeYears(y, z - 1);
    }
  }

  lemma {:induction false} BeforeMonths(y: int, m: int, n: int)
    requires 1 <= m < n <= 12
    ensures DaysBeforeMonth(y, m) + MonthLength(y, m) <= DaysBeforeMonth(y, n)
    decreases n
  {
    if m + 1 < n {
      BeforeMonths(y, m, n - 1);
    }
  }

  /** Later dates have larger day numbers. */
  lemma NaiveDaysMonotone(a: Date, b: Date)
    requires ValidDate(a) && ValidDate(b) && 1970 <= a.year && 1970 <= b.year
    requires Before(a, b)
    ensures NaiveDays(a) < NaiveDays(b)
  {
    if a.year < b.year {
      BeforeYears(a.year, b.year);
      DaysBeforeMonthClosed(a.year, 12);
      if a.month < 12 {
        BeforeMonths(a.year, a.month, 12);
      }
      NaiveDaysNonNegative(b);
    } else if a.month < b.month {
      BeforeMonths(a.year, a.month, b.month);
    }
  }

  /** The closed form preserves and reflects calendar order. */
  lemma ClosedFormIsOrderIsomorphic(a: Date, b: Date)
    requires ValidDate(a) && ValidDate(b) && 1970 <= a.year && 1970 <= b.year
    ensures var x, y := DaysSinceEpoch(a.year, a.month, a.day), DaysSinceEpoch(b.year, b.month, b.day);
            x.Some? && y.Some? && (Before(a, b) <==> x.value < y.value)
  {
    ClosedFormIsNaiveCount(a);
    ClosedFormIsNaiveCount(b);
    if Before(a, b) {
      NaiveDaysMonotone(a, b);
    } else if Before(b, a) {
      NaiveDaysMonotone(b, a);
    }
  }

  /** The other round trip: a real date from 1970 on is recovered from its day number. */
  lemma CivilInvertsClosedForm(t: Date)
    requires ValidDate(t) && 1970 <= t.year
    ensures var days := DaysSinceEpoch(t.year, t.month, t.day);
            days.Some? && UnixDaysToCivil(days.value) == t
  {
    ClosedFormIsNaiveCount(t);
    NaiveDaysNonNegative(t);
    var u := UnixDaysToCivil(NaiveDays(t));
    CivilIsValid(NaiveDays(t));
    ClosedFormIsOrderIsomorphic(t, u);
    ClosedFormIsOrderIsomorphic(u, t);
  }

  /** The closed-form inverse is the calendar found by counting days one at a time. */
  lemma CivilIsDateAfter(days: nat)
    ensures UnixDaysToCivil(days) == DateAfter(days)
  {
    DateAfterCounts(days);
    ClosedFormIsNaiveCount(DateAfter(days));
    CivilInvertsClosedForm(DateAfter(days));
  }
}
