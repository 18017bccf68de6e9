/** Civil date arithmetic on instants in milliseconds, as section 21.4.1 of ECMA-262 defines it. */
module CivilTime {

  type Instant = int

  const SECOND := 1000
  const MINUTE := 60_000
  const HOUR := 3_600_000
  const DAY := 86_400_000

  datatype Fields = Fields(year: int, month: int, day: int, hour: int, minute: int, second: int)

  predicate IsLeap(y: int) {
    y % 4 == 0 && (y % 100 != 0 || y % 400 == 0)
  }

  /** The number of the year's first day, counted from 1 January 1970. */
  function DayFromYear(y: int): int {
    365 * (y - 1970) + (y - 1969) / 4 - (y - 1901) / 100 + (y - 1601) / 400
  }

  function DaysBeforeMonth(month: int, leap: bool): (days: int)
    requires 1 <= month <= 13
  {
    var shift := if leap then 1 else 0;
    if month == 1 then 0
    else if month == 2 then 31
    else if month == 3 then 59 + shift
    else if month == 4 then 90 + shift
    else if month == 5 then 120 + shift
    else if month == 6 then 151 + shift
    else if month == 7 then 181 + shift
    else if month == 8 then 212 + shift
    else if month == 9 then 243 + shift
    else if month == 10 then 273 + shift
    else if month == 11 then 304 + shift
    else if month == 12 then 334 + shift
    else 365 + shift
  }

  function DaysInMonth(month: int, leap: bool): int
    requires 1 <= month <= 12
  {
    DaysBeforeMonth(month + 1, leap) - DaysBeforeMonth(month, leap)
  }

  predicate IsCivil(f: Fields) {
    && 1 <= f.month <= 12 && 1 <= f.day <= DaysInMonth(f.month, IsLeap(f.year))
    && 0 <= f.hour < 24 && 0 <= f.minute < 60 && 0 <= f.second < 60
  }

  function TimeOfDay(f: Fields): int {
    f.hour * HOUR + f.minute * MINUTE + f.second * SECOND
  }

  /** MakeDate of MakeDay and MakeTime: months and days beyond their range carry over. */
  function MakeDate(f: Fields): Instant {
    var year := f.year + (f.month - 1) / 12;
    var month := (f.month - 1) % 12 + 1;
    (DayFromYear(year) + DaysBeforeMonth(month, IsLeap(year)) + f.day - 1) * DAY + TimeOfDay(f)
  }

  /** `Date.UTC`: two-digit years mean the twentieth century. */
  function DateUtc(f: Fields): Instant {
    MakeDate(if 0 <= f.year <= 99 then f.(year := 1900 + f.year) else f)
  }

  // ---------------------------------------------------------------------------
  // From an instant back to its fields
  // ---------------------------------------------------------------------------

  lemma Quotients(n: int, k: int)
    requires 0 < k
    ensures (n + 1) / k == n / k + (if (n + 1) % k == 0 then 1 else 0)
  {
    var q, r := n / k, n % k;
    assert n == q * k + r;
    if r == k - 1 {
      assert n + 1 == (q + 1) * k + 0;
      Divides(n + 1, q + 1, 0, k);
    } else {
      Divides(n + 1, q, r + 1, k);
    }
  }

  lemma Divides(n: int, q: int, r: int, k: int)
    requires 0 <= r < k && n == q * k + r
    ensures n / k == q && n % k == r
  {
    MultiplesApart(n / k, q, k);
    MultiplesApart(q, n / k, k);
  }

  lemma {:induction false} MultiplesApart(a: int, b: int, k: int)
    requires 0 < k
    ensures a < b ==> a * k + k <= b * k
    decreases b - a
  {
    if a + 1 < b {
      MultiplesApart(a, b - 1, k);
    }
    assert (b - 1) * k == b * k - k;
  }

  lemma Remainders(n: int, m: int, k: int)
    requires 0 < k
    ensures (n - m * k) % k == n % k
  {
    Divides(n - m * k, n / k - m, n % k, k);
  }

  lemma LeapRule(y: int)
    ensures (if y % 4 == 0 then 1 else 0) - (if y % 100 == 0 then 1 else 0) + (if y % 400 == 0 then 1 else 0) == if IsLeap(y) then 1 else 0
  {
  }

  lemma YearLength(y: int)
    ensures DayFromYear(y + 1) == DayFromYear(y) + (if IsLeap(y) then 366 else 365)
  {
    Quotients(y - 1969, 4);
    Quotients(y - 1901, 100);
    Quotients(y - 1601, 400);
    Remainders(y, 492, 4);
    Remainders(y, 19, 100);
    Remainders(y, 4, 400);
    LeapRule(y);
  }

  /** A year starts within two days of its place in an average of 365.2425 days a year. */
  lemma YearsAreRegular(y: int)
    ensures -800 <= 400 * DayFromYear(y) - 146_097 * (y - 1970) <= 800
  {
  }

  /** YearFromTime: the one year that contains the day. */
  function YearOf(day: int): (y: int)
    ensures DayFromYear(y) <= day < DayFromYear(y + 1)
  {
    var guess := 1970 + day * 400 / 146_097;
    YearsAreRegular(guess - 1);
    YearsAreRegular(guess);
    YearsAreRegular(guess + 1);
    YearsAreRegular(guess + 2);
    if day < DayFromYear(guess) then guess - 1
    else if DayFromYear(guess + 1) <= day then guess + 1
    else guess
  }

  lemma YearsGrow(y: int, z: int)
    requires y <= z
    ensures DayFromYear(y) <= DayFromYear(z)
  {
  }

  lemma YearIsUnique(day: int, y: int)
    requires DayFromYear(y) <= day < DayFromYear(y + 1)
    ensures YearOf(day) == y
  {
  }

  /** MonthFromTime, from the day within the year. */
  function MonthOf(dayOfYear: int, leap: bool): (month: int)
    requires 0 <= dayOfYear < DaysBeforeMonth(13, leap)
    ensures 1 <= month <= 12 && DaysBeforeMonth(month, leap) <= dayOfYear < DaysBeforeMonth(month + 1, leap)
  {
    if dayOfYear < DaysBeforeMonth(2, leap) then 1
    else if dayOfYear < DaysBeforeMonth(3, leap) then 2
    else if dayOfYear < DaysBeforeMonth(4, leap) then 3
    else if dayOfYear < DaysBeforeMonth(5, leap) then 4
    else if dayOfYear < DaysBeforeMonth(6, leap) then 5
    else if dayOfYear < DaysBeforeMonth(7, leap) then 6
    else if dayOfYear < DaysBeforeMonth(8, leap) then 7
    else if dayOfYear < DaysBeforeMonth(9, leap) then 8
    else if dayOfYear < DaysBeforeMonth(10, leap) then 9
    else if dayOfYear < DaysBeforeMonth(11, leap) then 10
    else if dayOfYear < DaysBeforeMonth(12, leap) then 11
    else 12
  }

  /** The `getUTC...` fields of an instant, without its milliseconds. */
  function FieldsOf(t: Instant): (f: Fields)
    ensures IsCivil(f)
  {
    var day, time := t / DAY, t % DAY;
    var year := YearOf(day);
    YearLength(year);
    var dayOfYear := day - DayFromYear(year);
    var month := MonthOf(dayOfYear, IsLeap(year));
    Fields(year, month, dayOfYear - DaysBeforeMonth(month, IsLeap(year)) + 1,
           time / HOUR, time / MINUTE % 60, time / SECOND % 60)
  }

  function FloorSecond(t: Instant): Instant {
    t - t % SECOND
  }

  // ---------------------------------------------------------------------------
  // Fields and instants are in bijection
  // ---------------------------------------------------------------------------

  lemma TimeOfDaySplits(time: int)
    requires 0 <= time < DAY
    ensures time / HOUR * HOUR + time / MINUTE % 60 * MINUTE + time / SECOND % 60 * SECOND == time - time % SECOND
  {
    assert time / MINUTE == time / HOUR * 60 + time / MINUTE % 60;
    assert time / SECOND == time / MINUTE * 60 + time / SECOND % 60;
  }

  /** Reading the fields of an instant and making a date of them drops only the milliseconds. */
  lemma MakeDateOfFields(t: Instant)
    ensures MakeDate(FieldsOf(t)) == FloorSecond(t)
  {
    hide DayFromYear, DaysBeforeMonth, IsLeap, YearOf, MonthOf;
    var f, day, time := FieldsOf(t), t / DAY, t % DAY;
    TimeOfDaySplits(time);
    NoCarry(f);
    MillisecondsSplit(day, time);
    assert t == day * DAY + time;
    assert TimeOfDay(f) == time - time % SECOND;
    assert MakeDate(f) == day * DAY + TimeOfDay(f);
  }

  lemma NoCarry(f: Fields)
    requires 1 <= f.month <= 12
    ensures MakeDate(f) == (DayFromYear(f.year) + DaysBeforeMonth(f.month, IsLeap(f.year)) + f.day - 1) * DAY + TimeOfDay(f)
  {
    hide DayFromYear, DaysBeforeMonth, IsLeap, TimeOfDay;
    assert (f.month - 1) / 12 == 0 && (f.month - 1) % 12 + 1 == f.month;
  }

  lemma MillisecondsSplit(day: int, time: int)
    ensures (day * DAY + time) % SECOND == time % SECOND
  {
  }

  lemma TimeOfDayReads(f: Fields, ms: int)
    requires IsCivil(f) && 0 <= ms < SECOND
    ensures var time := TimeOfDay(f) + ms;
      0 <= time < DAY && time / HOUR == f.hour && time / MINUTE % 60 == f.minute && time / SECOND % 60 == f.second
  {
    var time := TimeOfDay(f) + ms;
    assert time / SECOND == f.hour * 3600 + f.minute * 60 + f.second;
    assert time / MINUTE == f.hour * 60 + f.minute;
  }

  /** Making a date of civil fields and reading them gives them back. */
  lemma FieldsOfMakeDate(f: Fields, ms: int)
    requires IsCivil(f) && 0 <= ms < SECOND
    ensures FieldsOf(MakeDate(f) + ms) == f
  {
    hide DayFromYear, DaysBeforeMonth, IsLeap, YearOf, MonthOf, TimeOfDay;
    var leap := IsLeap(f.year);
    var day := DayFromYear(f.year) + DaysBeforeMonth(f.month, leap) + f.day - 1;
    var t := MakeDate(f) + ms;
    TimeOfDayReads(f, ms);
    NoCarry(f);
    Divides(t, day, TimeOfDay(f) + ms, DAY);
    DayReads(f);
  }

  /** The year, month and day of a civil date are found again from its day number. */
  lemma DayReads(f: Fields)
    requires IsCivil(f)
    ensures var leap := IsLeap(f.year);
      var day := DayFromYear(f.year) + DaysBeforeMonth(f.month, leap) + f.day - 1;
      && YearOf(day) == f.year
      && 0 <= day - DayFromYear(f.year) < DaysBeforeMonth(13, leap)
      && MonthOf(day - DayFromYear(f.year), leap) == f.month
  {
    hide DayFromYear, DaysBeforeMonth, IsLeap, YearOf, MonthOf;
    var leap := IsLeap(f.year);
    var day := DayFromYear(f.year) + DaysBeforeMonth(f.month, leap) + f.day - 1;
    YearLength(f.year);
    WholeYear(leap);
    MonthIsUnique(f.month, f.day, leap);
    YearIsUnique(day, f.year);
  }

  lemma WholeYear(leap: bool)
    ensures DaysBeforeMonth(13, leap) == if leap then 366 else 365
  {
  }

  lemma MonthIsUnique(month: int, day: int, leap: bool)
    requires 1 <= month <= 12 && 1 <= day <= DaysInMonth(month, leap)
    ensures var dayOfYear := DaysBeforeMonth(month, leap) + day - 1;
      0 <= dayOfYear < DaysBeforeMonth(13, leap) && MonthOf(dayOfYear, leap) == month
  {
  }

  /** Two instants show the same fields exactly when they lie in the same second. */
  lemma SameFields(t: Instant, u: Instant)
    ensures FieldsOf(t) == FieldsOf(u) <==> FloorSecond(t) == FloorSecond(u)
  {
    hide FieldsOf, MakeDate;
    MakeDateOfFields(t);
    MakeDateOfFields(u);
    FieldsOfMakeDate(FieldsOf(t), 0);
    FieldsOfMakeDate(FieldsOf(u), 0);
  }

  /**
   The source's validity check: the fields come back from `Date.UTC` unchanged exactly when
   they are a civil date-time outside the remapped years 0 to 99.
   */
  lemma UtcCheckIsExact(f: Fields)
    ensures FieldsOf(DateUtc(f)) == f <==> IsCivil(f) && !(0 <= f.year <= 99)
  {
    hide FieldsOf, MakeDate, IsCivil;
    if 0 <= f.year <= 99 {
      if IsCivil(f) {
        RemappedYear(f);
      }
    } else if IsCivil(f) {
      FieldsOfMakeDate(f, 0);
    }
  }

  /** A civil date in the years 0 to 99 comes back at least a century off. */
  lemma RemappedYear(f: Fields)
    requires IsCivil(f) && 0 <= f.year <= 99
    ensures FieldsOf(DateUtc(f)).year != f.year
  {
    hide DayFromYear, DaysBeforeMonth, IsLeap, YearOf, MonthOf, TimeOfDay;
    var t, g := DateUtc(f), f.(year := 1900 + f.year);
    TimeOfDayReads(f, 0);
    NoCarry(g);
    assert TimeOfDay(g) == TimeOfDay(f) by { SameTime(f, g); }
    var day := DayFromYear(g.year) + DaysBeforeMonth(g.month, IsLeap(g.year)) + g.day - 1;
    Divides(t, day, TimeOfDay(g), DAY);
    NotBeforeYear(g);
    if YearOf(day) < g.year {
      YearsGrow(YearOf(day) + 1, g.year);
    }
  }

  lemma SameTime(f: Fields, g: Fields)
    requires f.hour == g.hour && f.minute == g.minute && f.second == g.second
    ensures TimeOfDay(f) == TimeOfDay(g)
  {
  }

  lemma NotBeforeYear(f: Fields)
    requires 1 <= f.month <= 12 && 1 <= f.day
    ensures DayFromYear(f.year) <= DayFromYear(f.year) + DaysBeforeMonth(f.month, IsLeap(f.year)) + f.day - 1
  {
  }
}
