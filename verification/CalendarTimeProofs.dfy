/** When wall times resolve, to what, and that printing undoes it. */
module CalendarTimeProofs {
  import opened Wrappers
  import opened CivilTime
  import opened CalendarTime

  // ---------------------------------------------------------------------------
  // Texts and fields
  // ---------------------------------------------------------------------------

  lemma PadTwo(n: nat)
    requires n <= 99
    ensures Pad(n, 2) == [DigitChar(n / 10), DigitChar(n % 10)]
  {
  }

  lemma PadFour(n: nat)
    requires n <= 9999
    ensures Pad(n, 4) == [DigitChar(n / 1000), DigitChar(n / 100 % 10), DigitChar(n / 10 % 10), DigitChar(n % 10)]
  {
    assert n / 10 / 10 / 10 == n / 1000 && n / 10 / 10 == n / 100;
    assert Pad(n / 1000, 1) == [DigitChar(n / 1000)];
    assert Pad(n / 100, 2) == Pad(n / 1000, 1) + [DigitChar(n / 100 % 10)];
    assert Pad(n / 10, 3) == Pad(n / 100, 2) + [DigitChar(n / 10 % 10)];
  }

  /** What `Format` writes, character by character. */
  lemma FormatChars(f: Fields)
    requires IsCivil(f) && 0 <= f.year <= 9999
    ensures Format(f) == [DigitChar(f.year / 1000), DigitChar(f.year / 100 % 10), DigitChar(f.year / 10 % 10), DigitChar(f.year % 10), '-',
                          DigitChar(f.month / 10), DigitChar(f.month % 10), '-', DigitChar(f.day / 10), DigitChar(f.day % 10), 'T',
                          DigitChar(f.hour / 10), DigitChar(f.hour % 10), ':', DigitChar(f.minute / 10), DigitChar(f.minute % 10), ':',
                          DigitChar(f.second / 10), DigitChar(f.second % 10)]
  {
    hide Pad, DigitChar;
    DayIsSmall(f);
    PadFour(f.year);
    PadTwo(f.month);
    PadTwo(f.day);
    PadTwo(f.hour);
    PadTwo(f.minute);
    PadTwo(f.second);
  }

  lemma DigitsAreDecimal()
    ensures forall d :: 0 <= d <= 9 ==> DigitChar(d) == "0123456789"[d] && DigitValue("0123456789"[d]) == d
  {
  }

  lemma DayIsSmall(f: Fields)
    requires IsCivil(f)
    ensures f.day <= 31
  {
  }

  lemma TwoDigits(s: string, i: nat, n: nat)
    requires n <= 99 && i + 2 <= |s| && s[i] == DigitChar(n / 10) && s[i + 1] == DigitChar(n % 10)
    ensures DigitsAt(s, i, i + 2) && Two(s, i) == n
  {
  }

  lemma DigitsOfTwo(s: string, i: nat)
    requires DigitsAt(s, i, i + 2)
    ensures s[i] == DigitChar(Two(s, i) / 10) && s[i + 1] == DigitChar(Two(s, i) % 10)
  {
  }

  lemma YearDigits(y: nat)
    requires y <= 9999
    ensures y / 100 / 10 == y / 1000 && y / 100 % 10 == y / 100 % 10 && y % 100 / 10 == y / 10 % 10 && y % 100 % 10 == y % 10
    ensures y == y / 100 * 100 + y % 100
  {
  }

  lemma FormatHasShape(f: Fields)
    requires IsCivil(f) && 0 <= f.year <= 9999
    ensures HasShape(Format(f)) && ShapeFields(Format(f)) == f
  {
    hide DigitChar, Two, Format, IsCivil;
    var s := Format(f);
    DayIsSmall(f);
    CivilBounds(f);
    FormatChars(f);
    YearDigits(f.year);
    TwoDigits(s, 0, f.year / 100);
    TwoDigits(s, 2, f.year % 100);
    TwoDigits(s, 5, f.month);
    TwoDigits(s, 8, f.day);
    TwoDigits(s, 11, f.hour);
    TwoDigits(s, 14, f.minute);
    TwoDigits(s, 17, f.second);
    assert |s| == 19;
  }

  lemma CivilBounds(f: Fields)
    requires IsCivil(f)
    ensures 1 <= f.month <= 12 && 1 <= f.day && 0 <= f.hour < 24 && 0 <= f.minute < 60 && 0 <= f.second < 60
  {
  }

  /** The parser accepts exactly the civil date-times of the pattern from the year 100 on. */
  lemma ParseIsExact(s: string)
    ensures Parse(s).Ok? <==> HasShape(s) && IsCivil(ShapeFields(s)) && 100 <= ShapeFields(s).year
  {
    hide FieldsOf, DateUtc, IsCivil;
    if HasShape(s) {
      UtcCheckIsExact(ShapeFields(s));
    }
  }

  lemma FormatParses(f: Fields)
    requires IsCivil(f) && 100 <= f.year <= 9999
    ensures Parse(Format(f)) == Ok(f)
  {
    hide FieldsOf, DateUtc, IsCivil, Format;
    FormatHasShape(f);
    ParseIsExact(Format(f));
  }

  /** Printing what was parsed gives the text back, with its seconds spelled out. */
  lemma ParsedFormats(s: string)
    requires Parse(s).Ok?
    ensures var f := Parse(s).value;
      IsCivil(f) && 100 <= f.year <= 9999 && Format(f) == Normalised(s)
  {
    hide FieldsOf, DateUtc, IsCivil, Format, DigitChar, Two;
    ParseIsExact(s);
    var f, n := Parse(s).value, Normalised(s);
    assert HasShape(n) && ShapeFields(n) == f by {
      NormalisedShape(s);
    }
    FormatChars(f);
    DigitsOfTwo(n, 0);
    DigitsOfTwo(n, 2);
    DigitsOfTwo(n, 5);
    DigitsOfTwo(n, 8);
    DigitsOfTwo(n, 11);
    DigitsOfTwo(n, 14);
    DigitsOfTwo(n, 17);
    YearDigits(f.year);
    assert f.year / 100 == Two(n, 0) && f.year % 100 == Two(n, 2);
    assert |Format(f)| == |n| && forall i :: 0 <= i < 19 ==> Format(f)[i] == n[i];
  }

  lemma NormalisedShape(s: string)
    requires HasShape(s)
    ensures HasShape(Normalised(s)) && ShapeFields(Normalised(s)) == ShapeFields(s) && |Normalised(s)| == 19
  {
  }

  // ---------------------------------------------------------------------------
  // Resolution
  // ---------------------------------------------------------------------------

  /** Offsets are whole seconds, hold for whole seconds, and stay within thirty hours. */
  ghost predicate SaneZone(zone: Zone) {
    forall t :: -30 * HOUR <= zone(t) <= 30 * HOUR && zone(t) % SECOND == 0 && zone(FloorSecond(t)) == zone(t)
  }

  /** Near a wall time, every stretch of constant offset lasts six hours or more. */
  ghost predicate SteadyNear(zone: Zone, wallClock: Instant) {
    forall t :: wallClock - 30 * HOUR <= t <= wallClock + 30 * HOUR ==> Steady(zone, t)
  }

  ghost predicate Steady(zone: Zone, t: Instant) {
    exists a :: a <= t < a + 6 * HOUR && ConstantFrom(zone, a, zone(t))
  }

  ghost predicate ConstantFrom(zone: Zone, a: Instant, offset: int) {
    forall u :: a <= u < a + 6 * HOUR ==> zone(u) == offset
  }

  /** Wall times the resolver can be asked for: civil, and at least six hours into the year 100. */
  ghost predicate Resolvable(wanted: Fields) {
    IsCivil(wanted) && 100 <= wanted.year && DayFromYear(100) * DAY + 6 * HOUR <= MakeDate(wanted)
  }

  lemma MakeDateAligned(f: Fields)
    ensures MakeDate(f) % SECOND == 0
  {
    hide DayFromYear, DaysBeforeMonth;
    var year, month := f.year + (f.month - 1) / 12, (f.month - 1) % 12 + 1;
    var day := DayFromYear(year) + DaysBeforeMonth(month, IsLeap(year)) + f.day - 1;
    Divides(MakeDate(f), day * 86_400 + f.hour * 3600 + f.minute * 60 + f.second, 0, SECOND);
  }

  /** An instant shows the wanted fields when its local time lies in the wanted second. */
  lemma ShowsWhen(t: Instant, zone: Zone, wanted: Fields)
    requires IsCivil(wanted)
    ensures ZonedParts(t, zone) == wanted <==> FloorSecond(t + zone(t)) == MakeDate(wanted)
  {
    hide FieldsOf, MakeDate;
    FieldsOfMakeDate(wanted, 0);
    SameFields(t + zone(t), MakeDate(wanted));
    MakeDateAligned(wanted);
  }

  lemma AlignedSums(t: int, o: int)
    requires o % SECOND == 0
    ensures FloorSecond(t + o) == FloorSecond(t) + o
  {
  }

  lemma FloorSecondFloors(t: int)
    ensures FloorSecond(t) % SECOND == 0 && FloorSecond(t) <= t && (t % SECOND == 0 ==> FloorSecond(t) == t)
  {
  }

  /** In a sane zone, an aligned instant shows the wanted fields when its offset leads to the wall time. */
  lemma AlignedShows(t: Instant, zone: Zone, wanted: Fields)
    requires SaneZone(zone) && IsCivil(wanted) && t % SECOND == 0
    ensures ZonedParts(t, zone) == wanted <==> t + zone(t) == MakeDate(wanted)
  {
    hide ZonedParts, MakeDate;
    ShowsWhen(t, zone, wanted);
    AlignedSums(t, zone(t));
    FloorSecondFloors(t);
  }

  /** The second an instant lies in shows what the instant shows. */
  lemma StartOfSecondShows(t: Instant, zone: Zone, wanted: Fields)
    requires SaneZone(zone) && IsCivil(wanted) && ZonedParts(t, zone) == wanted
    ensures ZonedParts(FloorSecond(t), zone) == wanted
  {
    hide ZonedParts, MakeDate;
    ShowsWhen(t, zone, wanted);
    ShowsWhen(FloorSecond(t), zone, wanted);
    AlignedSums(t, zone(t));
    FloorSecondFloors(t);
    AlignedSums(FloorSecond(t), zone(t));
    FloorSecondFloors(FloorSecond(t));
  }

  /** From the year 100 on, the measured offset is the offset. */
  lemma MeasuredIsOffset(p: Instant, zone: Zone)
    requires SaneZone(zone) && p % SECOND == 0 && DayFromYear(100) * DAY <= p + zone(p)
    ensures MeasuredOffset(p, zone) == zone(p)
  {
    hide FieldsOf, MakeDate, DayFromYear;
    var local := p + zone(p);
    MakeDateOfFields(local);
    AlignedSums(p, zone(p));
    FloorSecondFloors(p);
    LocalYear(local, 100);
  }

  lemma LocalYear(local: Instant, y: int)
    requires DayFromYear(y) * DAY <= local
    ensures y <= FieldsOf(local).year
  {
    hide DayFromYear, MonthOf, DaysBeforeMonth, IsLeap;
    assert DayFromYear(y) <= local / DAY;
    if YearOf(local / DAY) < y {
      YearsGrow(YearOf(local / DAY) + 1, y);
    }
  }

  /** Six hours in a row contain a probe, and near the wall time that probe is taken. */
  lemma ProbeIn(wallClock: Instant, a: Instant) returns (k: int)
    requires wallClock - 36 * HOUR < a && a + 6 * HOUR <= wallClock + 36 * HOUR + 1
    ensures 0 <= k < PROBES && a <= Probe(wallClock, k) < a + 6 * HOUR
  {
    k := (a - wallClock + 36 * HOUR + 6 * HOUR - 1) / (6 * HOUR);
  }

  lemma SolutionIsCandidate(t: Instant, zone: Zone, wanted: Fields)
    requires SaneZone(zone) && Resolvable(wanted) && SteadyNear(zone, MakeDate(wanted))
    requires t % SECOND == 0 && ZonedParts(t, zone) == wanted
    ensures IsCandidate(wanted, zone, t)
  {
    hide ZonedParts, MakeDate, MeasuredOffset, DayFromYear, IsCivil;
    var w := MakeDate(wanted);
    AlignedShows(t, zone, wanted);
    assert Steady(zone, t);
    var a :| a <= t < a + 6 * HOUR && ConstantFrom(zone, a, zone(t));
    var k := ProbeIn(w, a);
    var p := Probe(w, k);
    assert zone(p) == zone(t);
    MakeDateAligned(wanted);
    assert p % SECOND == 0 by {
      Divides(p, w / SECOND + (6 * k - 36) * 3600, 0, SECOND);
    }
    MeasuredIsOffset(p, zone);
    assert DateUtc(wanted) == w;
  }

  ghost predicate IsEarliest(t: Instant, zone: Zone, wanted: Fields) {
    ZonedParts(t, zone) == wanted && forall u :: ZonedParts(u, zone) == wanted ==> t <= u
  }

  /**
   Main result: in a zone that is steady near the wall time, the resolver returns the
   earliest instant that shows it, and throws exactly when no instant does.
   */
  lemma ResolutionIsExact(wanted: Fields, zone: Zone, r: Result<Instant, CalendarError>)
    requires SaneZone(zone) && Resolvable(wanted) && SteadyNear(zone, MakeDate(wanted))
    requires IsResolution(wanted, zone, r)
    ensures r.Ok? ==> IsEarliest(r.value, zone, wanted)
    ensures r.Err? <==> forall t :: ZonedParts(t, zone) != wanted
  {
    hide ZonedParts, MakeDate, SteadyNear, IsProbedOffset, FloorSecond, SaneZone, IsCivil;
    assert IsCivil(wanted);
    forall t | ZonedParts(t, zone) == wanted ensures r.Ok? && r.value <= t {
      StartOfSecondShows(t, zone, wanted);
      FloorSecondFloors(t);
      SolutionIsCandidate(FloorSecond(t), zone, wanted);
    }
  }

  // ---------------------------------------------------------------------------
  // What the probes see
  // ---------------------------------------------------------------------------

  /** The probe has this offset, and its local time lies in the year 100 or later. */
  predicate Sees(p: Instant, zone: Zone, offset: int) {
    zone(p) == offset && DayFromYear(100) * DAY <= p + offset
  }

  /** The probe at one of the hours -36, -30, and so on up to 36 from the wall time sees the offset. */
  ghost predicate IsSeen(wallClock: Instant, zone: Zone, offset: int) {
    exists hours: int :: -36 <= hours <= 36 && hours % 6 == 0 && SeesAt(wallClock, hours, zone, offset)
  }

  predicate SeesAt(wallClock: Instant, hours: int, zone: Zone, offset: int) {
    Sees(wallClock + hours * 3_600_000, zone, offset)
  }

  lemma ProbesAreHours(wallClock: Instant, zone: Zone, offset: int)
    ensures (exists k :: 0 <= k < PROBES && Sees(Probe(wallClock, k), zone, offset)) <==> IsSeen(wallClock, zone, offset)
  {
    hide Sees;
    if k :| 0 <= k < PROBES && Sees(Probe(wallClock, k), zone, offset) {
      assert SeesAt(wallClock, 6 * k - 36, zone, offset);
    }
    if hours: int :| -36 <= hours <= 36 && hours % 6 == 0 && SeesAt(wallClock, hours, zone, offset) {
      assert Sees(Probe(wallClock, hours / 6 + 6), zone, offset);
    }
  }

  lemma NotBefore100(wanted: Fields)
    requires IsCivil(wanted) && 100 <= wanted.year
    ensures DayFromYear(100) * DAY <= MakeDate(wanted)
  {
    hide DayFromYear, DaysBeforeMonth, MakeDate;
    CivilBounds(wanted);
    NoCarry(wanted);
    NotBeforeYear(wanted);
    YearsGrow(100, wanted.year);
    assert 0 <= TimeOfDay(wanted);
  }

  /** Measured through `Date.UTC`, a local time in the year 99 is nineteen centuries off. */
  lemma MeasuredInYear99(p: Instant, zone: Zone)
    requires SaneZone(zone) && DayFromYear(99) * DAY <= p + zone(p) < DayFromYear(100) * DAY
    ensures MeasuredOffset(p, zone) > 30 * HOUR
  {
    hide FieldsOf, MakeDate, IsCivil, DaysBeforeMonth;
    var local := p + zone(p);
    LocalYear(local, 99);
    NotYet100(local);
    var f := FieldsOf(local).(year := 1999);
    CivilBounds(FieldsOf(local));
    NoCarry(f);
    NotBeforeYear(f);
    assert 0 <= TimeOfDay(f);
    assert DayFromYear(1999) > DayFromYear(100) + 3;
  }

  lemma NotYet100(local: Instant)
    requires local < DayFromYear(100) * DAY
    ensures FieldsOf(local).year < 100
  {
    hide DayFromYear, MonthOf, DaysBeforeMonth, IsLeap;
    assert local / DAY < DayFromYear(100);
    if YearOf(local / DAY) >= 100 {
      YearsGrow(100, YearOf(local / DAY));
    }
  }

  lemma ProbeMeasures(wanted: Fields, zone: Zone, k: int)
    requires SaneZone(zone) && IsCivil(wanted) && 100 <= wanted.year && 0 <= k < PROBES
    ensures var p := Probe(MakeDate(wanted), k);
      if DayFromYear(100) * DAY <= p + zone(p) then MeasuredOffset(p, zone) == zone(p) else MeasuredOffset(p, zone) > 30 * HOUR
  {
    hide MakeDate, MeasuredOffset, IsCivil;
    var w := MakeDate(wanted);
    var p := Probe(w, k);
    MakeDateAligned(wanted);
    Divides(p, w / SECOND + (6 * k - 36) * 3600, 0, SECOND);
    NotBefore100(wanted);
    assert DayFromYear(100) == DayFromYear(99) + 365;
    if DayFromYear(100) * DAY <= p + zone(p) {
      MeasuredIsOffset(p, zone);
    } else {
      MeasuredInYear99(p, zone);
    }
  }

  /** The range of `Date`: a hundred million days to either side of 1970 (section 21.4.1.1 of ECMA-262). */
  predicate IsTimeValue(t: Instant) {
    -100_000_000 * DAY <= t <= 100_000_000 * DAY
  }

  lemma DateSpan(f: Fields)
    requires 1 <= f.month <= 12 && 1 <= f.day <= 31 && 0 <= f.hour < 24 && 0 <= f.minute < 60 && 0 <= f.second < 60
    ensures DayFromYear(f.year) * DAY <= MakeDate(f) <= (DayFromYear(f.year) + 400) * DAY
  {
    hide DayFromYear, MakeDate, IsLeap;
    NoCarry(f);
    assert 0 <= DaysBeforeMonth(f.month, IsLeap(f.year)) <= 366;
    assert 0 <= TimeOfDay(f) <= DAY;
  }

  /** No `Date` the resolver makes of a parsed text is out of range: wall clock, probes, and the instants it considers. */
  lemma DatesStayValid(wanted: Fields, zone: Zone, k: int)
    requires SaneZone(zone) && IsCivil(wanted) && 100 <= wanted.year <= 9999 && 0 <= k < PROBES
    ensures var w := DateUtc(wanted);
      IsTimeValue(w) && IsTimeValue(Probe(w, k)) && IsTimeValue(w - MeasuredOffset(Probe(w, k), zone))
  {
    hide MakeDate, FieldsOf, IsCivil, YearOf;
    var w := MakeDate(wanted);
    var p := Probe(w, k);
    CivilBounds(wanted);
    DayIsSmall(wanted);
    DateSpan(wanted);
    YearsGrow(100, wanted.year);
    YearsGrow(wanted.year, 9999);
    ProbeMeasures(wanted, zone, k);
    if p + zone(p) < DayFromYear(100) * DAY {
      var f := ZonedParts(p, zone);
      LocalYear(p + zone(p), 99);
      NotYet100(p + zone(p));
      CivilBounds(f);
      DayIsSmall(f);
      DateSpan(f.(year := 1999));
    }
  }

  /**
   In a sane zone, steady or not, an instant is kept exactly when it is a whole second that
   shows the wall time and some probe sees its offset.
   */
  lemma CandidateIsSeen(wanted: Fields, zone: Zone, u: Instant)
    requires SaneZone(zone) && IsCivil(wanted) && 100 <= wanted.year
    ensures IsCandidate(wanted, zone, u)
       <==> && u % SECOND == 0 && ZonedParts(u, zone) == wanted
            && IsSeen(MakeDate(wanted), zone, zone(u))
  {
    hide ZonedParts, MakeDate, MeasuredOffset, IsCivil, Probe, DayFromYear, IsSeen;
    var w := MakeDate(wanted);
    ProbesAreHours(w, zone, zone(u));
    assert DateUtc(wanted) == w;
    MakeDateAligned(wanted);
    forall k | 0 <= k < PROBES
      ensures var p := Probe(w, k);
        if DayFromYear(100) * DAY <= p + zone(p) then MeasuredOffset(p, zone) == zone(p) else MeasuredOffset(p, zone) > 30 * HOUR
    {
      ProbeMeasures(wanted, zone, k);
    }
    if ZonedParts(u, zone) == wanted {
      ShowsWhen(u, zone, wanted);
      AlignedSums(u, zone(u));
      FloorSecondFloors(u);
      if w - u == zone(u) {
        AlignedDifference(w, zone(u));
      }
      if u % SECOND == 0 {
        AlignedShows(u, zone, wanted);
      }
      if k :| 0 <= k < PROBES && w - u == MeasuredOffset(Probe(w, k), zone) {
        AlignedDifference(w, zone(Probe(w, k)));
        AlignedShows(u, zone, wanted);
      }
    }
  }

  lemma AlignedDifference(t: int, o: int)
    requires t % SECOND == 0 && o % SECOND == 0
    ensures (t - o) % SECOND == 0
  {
    Divides(t - o, t / SECOND - o / SECOND, 0, SECOND);
  }

  /**
   Without steadiness: the earliest solution is found if and only if some probe has its offset
   and lies in the local year 100 or later; no earlier or later instant is ever returned in its place then.
   */
  lemma FoundWhenProbed(wanted: Fields, zone: Zone, r: Result<Instant, CalendarError>, t: Instant)
    requires SaneZone(zone) && IsCivil(wanted) && 100 <= wanted.year
    requires IsResolution(wanted, zone, r) && IsEarliest(t, zone, wanted)
    ensures r == Ok(t) <==> IsSeen(MakeDate(wanted), zone, zone(t))
  {
    hide ZonedParts, IsProbedOffset, DateUtc, MakeDate, IsSeen, SaneZone, IsCivil, Probe;
    StartOfSecondShows(t, zone, wanted);
    FloorSecondFloors(t);
    CandidateIsSeen(wanted, zone, t);
  }

  /** Printing a resolved instant gives the text back, in every zone. */
  lemma ResolvedPrintsBack(text: string, zone: Zone, t: Instant)
    requires Parse(text).Ok? && IsResolution(Parse(text).value, zone, Ok(t))
    ensures ZonedParts(t, zone).year >= 0 && InstantToLocal(t, zone) == Normalised(text)
  {
    hide ZonedParts, Format, Parse;
    ParsedFormats(text);
  }

  /**
   Resolving a printed instant gives an instant not after it, and gives it back exactly when
   no earlier instant shows the same local time.
   */
  lemma PrintedResolvesBack(t: Instant, zone: Zone, r: Result<Instant, CalendarError>)
    requires SaneZone(zone) && t % SECOND == 0
    requires var local := ZonedParts(t, zone); Resolvable(local) && local.year <= 9999 && SteadyNear(zone, MakeDate(local))
    requires IsResolution(ZonedParts(t, zone), zone, r)
    ensures Parse(InstantToLocal(t, zone)) == Ok(ZonedParts(t, zone))
    ensures r.Ok? && r.value <= t
    ensures r.value == t <==> forall u :: u < t ==> ZonedParts(u, zone) != ZonedParts(t, zone)
  {
    hide ZonedParts, Format, Parse, SaneZone, SteadyNear, IsCivil, MakeDate, IsCandidate;
    assert IsCivil(ZonedParts(t, zone)) by { assert Resolvable(ZonedParts(t, zone)); }
    FormatParses(ZonedParts(t, zone));
    ResolutionIsExact(ZonedParts(t, zone), zone, r);
  }

  // ---------------------------------------------------------------------------
  // The first hours of the year 100
  // ---------------------------------------------------------------------------

  const NEW_YEAR_100: Fields := Fields(100, 1, 1, 0, 0, 0)

  /** One hour ahead before midnight UTC of New Year 100, seven hours ahead from then on. */
  function LateChange(t: Instant): int {
    if t < MakeDate(NEW_YEAR_100) then HOUR else 7 * HOUR
  }

  /**
   Why the resolver's theorem leaves the first six hours of the year 100 out. The zone is made
   up, no real one changes then: it is sane and steady and shows the first midnight of the year
   one hour before midnight UTC, yet every probe that could find its offset lies in a local
   year that `Date.UTC` remaps, and nothing is found.
   */
  lemma FirstHoursAreMissed()
    ensures SaneZone(LateChange) && SteadyNear(LateChange, MakeDate(NEW_YEAR_100))
    ensures ZonedParts(MakeDate(NEW_YEAR_100) - HOUR, LateChange) == NEW_YEAR_100
    ensures IsResolution(NEW_YEAR_100, LateChange, Err(DoesNotExist))
  {
    hide ZonedParts, MakeDate, SaneZone, SteadyNear, IsCandidate;
    var w := MakeDate(NEW_YEAR_100);
    MakeDateAligned(NEW_YEAR_100);
    AlignedDifference(w, HOUR);
    LateChangeIsSane();
    AlignedShows(w - HOUR, LateChange, NEW_YEAR_100);
    forall u ensures !IsCandidate(NEW_YEAR_100, LateChange, u) {
      NothingIsSeen(u);
    }
  }

  /** The one solution has the early offset, which every probe behind New Year lacks and every probe before it hides. */
  lemma NothingIsSeen(u: Instant)
    ensures !IsCandidate(NEW_YEAR_100, LateChange, u)
  {
    hide ZonedParts, IsCandidate, SteadyNear;
    var w := MakeDate(NEW_YEAR_100);
    assert w == DayFromYear(100) * DAY;
    LateChangeIsSane();
    CandidateIsSeen(NEW_YEAR_100, LateChange, u);
    if u % SECOND == 0 {
      AlignedShows(u, LateChange, NEW_YEAR_100);
    }
  }

  lemma LateChangeIsSane()
    ensures SaneZone(LateChange) && SteadyNear(LateChange, MakeDate(NEW_YEAR_100))
  {
    hide MakeDate, Steady;
    MakeDateAligned(NEW_YEAR_100);
    forall t ensures LateChange(FloorSecond(t)) == LateChange(t) {
      FloorSecondFloors(t);
    }
    forall t ensures Steady(LateChange, t) {
      LateChangeIsSteady(t);
    }
  }

  lemma LateChangeIsSteady(t: Instant)
    ensures Steady(LateChange, t)
  {
    hide MakeDate;
    var a := if t < MakeDate(NEW_YEAR_100) then t - 6 * HOUR + 1 else t;
    assert a <= t < a + 6 * HOUR && ConstantFrom(LateChange, a, LateChange(t));
  }
}
