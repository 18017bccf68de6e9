/**
 The calendar, by its months: what `CivilTime` computes from day numbers is the succession of
 civil dates, one per day, counted from the first of January 1970.
 */
module CivilCalendar {
  import opened CivilTime

  /** Thirty days have April, June, September and November. */
  function MonthLength(year: int, month: int): int {
    if month == 2 then (if year % 4 == 0 && (year % 100 != 0 || year % 400 == 0) then 29 else 28)
    else if month in {4, 6, 9, 11} then 30
    else 31
  }

  /** The civil date-times are those of the calendar. */
  lemma CivilIsCalendar(f: Fields)
    ensures IsCivil(f)
       <==> 1 <= f.month <= 12 && 1 <= f.day <= MonthLength(f.year, f.month)
            && 0 <= f.hour <= 23 && 0 <= f.minute <= 59 && 0 <= f.second <= 59
  {
  }

  /** The same time on the next day of the calendar. */
  function NextDay(f: Fields): Fields {
    if f.day < MonthLength(f.year, f.month) then f.(day := f.day + 1)
    else if f.month < 12 then f.(month := f.month + 1, day := 1)
    else f.(year := f.year + 1, month := 1, day := 1)
  }

  /** The first day of the count, to the millisecond. */
  lemma FirstDay(t: Instant)
    requires 0 <= t < 86_400_000
    ensures FieldsOf(t) == Fields(1970, 1, 1, t / 3_600_000, t / 60_000 % 60, t / 1000 % 60)
  {
    hide MonthOf, YearOf, DaysBeforeMonth, FieldsOf;
    var f := Fields(1970, 1, 1, t / 3_600_000, t / 60_000 % 60, t / 1000 % 60);
    TimeOfDaySplits(t);
    CivilIsCalendar(f);
    NoCarry(f);
    assert DaysBeforeMonth(1, IsLeap(1970)) == 0 by { January(); }
    FieldsOfMakeDate(f, t % 1000);
  }

  lemma January()
    ensures forall leap :: DaysBeforeMonth(1, leap) == 0
  {
  }

  /** Going on by a day of milliseconds goes to the next date of the calendar. */
  lemma NextDate(t: Instant)
    ensures FieldsOf(t + 86_400_000) == NextDay(FieldsOf(t))
  {
    hide MonthOf, YearOf, DayFromYear, DaysBeforeMonth, TimeOfDay, MonthLength;
    var f := FieldsOf(t);
    var next := NextDay(f);
    CivilIsCalendar(f);
    assert IsCivil(next) by { NextIsCivil(f); }
    MakeDateOfFields(t);
    NextMakesDate(f);
    Divides(t, t / 1000, t % 1000, 1000);
    FieldsOfMakeDate(next, t % 1000);
  }

  lemma NextIsCivil(f: Fields)
    requires IsCivil(f)
    ensures IsCivil(NextDay(f))
  {
  }

  lemma NextMakesDate(f: Fields)
    requires IsCivil(f)
    ensures MakeDate(NextDay(f)) == MakeDate(f) + 86_400_000
  {
    hide DayFromYear, TimeOfDay;
    NextIsCivil(f);
    NoCarry(f);
    NoCarry(NextDay(f));
    SameTime(f, NextDay(f));
    YearLength(f.year);
  }

  /** A date so many days on, counted one by one. */
  function DaysOn(f: Fields, days: nat): Fields {
    if days == 0 then f else NextDay(DaysOn(f, days - 1))
  }

  /**
   Main result: so many days of milliseconds on, an instant shows the date that counting reaches.
   With the first day this fixes the fields of every instant, before 1970 as after.
   */
  lemma {:induction false} DatesAreCounted(t: Instant, days: nat)
    ensures FieldsOf(t + days * 86_400_000) == DaysOn(FieldsOf(t), days)
  {
    hide FieldsOf, NextDay;
    if days > 0 {
      DatesAreCounted(t, days - 1);
      NextDate(t + (days - 1) * 86_400_000);
    }
  }
}
