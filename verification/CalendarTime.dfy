/**
 Local wall time to instants and back, over a zone that is an arbitrary function from
 instants to offsets.
 */
module CalendarTime {
  import opened Wrappers
  import opened CivilTime

  /** The offset of local time from UTC, in milliseconds, at every instant. */
  type Zone = Instant -> int

  datatype CalendarError = Malformed | NotCivil | DoesNotExist

  // ---------------------------------------------------------------------------
  // Local date-time texts
  // ---------------------------------------------------------------------------

  predicate IsDigit(c: char) {
    '0' <= c <= '9'
  }

  function DigitValue(c: char): int
    requires IsDigit(c)
  {
    c as int - '0' as int
  }

  function DigitChar(d: int): char
    requires 0 <= d <= 9
  {
    (d + '0' as int) as char
  }

  predicate DigitsAt(s: string, from: nat, to: nat) {
    from <= to <= |s| && forall i :: from <= i < to ==> IsDigit(s[i])
  }

  /** The pattern YYYY-MM-DDTHH:mm with optional seconds. */
  predicate HasShape(s: string) {
    && (|s| == 16 || (|s| == 19 && s[16] == ':' && DigitsAt(s, 17, 19)))
    && DigitsAt(s, 0, 4) && s[4] == '-' && DigitsAt(s, 5, 7) && s[7] == '-' && DigitsAt(s, 8, 10)
    && s[10] == 'T' && DigitsAt(s, 11, 13) && s[13] == ':' && DigitsAt(s, 14, 16)
  }

  function Two(s: string, i: nat): (n: int)
    requires DigitsAt(s, i, i + 2)
    ensures 0 <= n <= 99
  {
    DigitValue(s[i]) * 10 + DigitValue(s[i + 1])
  }

  function ShapeFields(s: string): Fields
    requires HasShape(s)
  {
    Fields(Two(s, 0) * 100 + Two(s, 2), Two(s, 5), Two(s, 8), Two(s, 11), Two(s, 14), if |s| == 16 then 0 else Two(s, 17))
  }

  /** `parseLocalDateTime` */
  function Parse(s: string): Result<Fields, CalendarError> {
    if !HasShape(s) then Err(Malformed)
    else
      var f := ShapeFields(s);
      if FieldsOf(DateUtc(f)) != f then Err(NotCivil) else Ok(f)
  }

  /** `String(value).padStart(length, "0")` */
  function Pad(value: nat, length: nat): string
    decreases value, length
  {
    if value < 10 && length <= 1 then [DigitChar(value)]
    else Pad(value / 10, if length == 0 then 0 else length - 1) + [DigitChar(value % 10)]
  }

  function Format(f: Fields): string
    requires f.year >= 0 && IsCivil(f)
  {
    Pad(f.year, 4) + "-" + Pad(f.month, 2) + "-" + Pad(f.day, 2) + "T"
      + Pad(f.hour, 2) + ":" + Pad(f.minute, 2) + ":" + Pad(f.second, 2)
  }

  /** The text with its seconds spelled out. */
  function Normalised(s: string): string {
    if |s| == 16 then s + ":00" else s
  }

  // ---------------------------------------------------------------------------
  // Zoned fields and resolution
  // ---------------------------------------------------------------------------

  function ZonedParts(t: Instant, zone: Zone): Fields {
    FieldsOf(t + zone(t))
  }

  /** `instantToLocalDateTime`, for instants whose local year is not negative. */
  function InstantToLocal(t: Instant, zone: Zone): string
    requires ZonedParts(t, zone).year >= 0
  {
    Format(ZonedParts(t, zone))
  }

  const PROBES := 13

  /** The probes lie six hours apart, from 36 hours before the wall time to 36 hours after. */
  function Probe(wallClock: Instant, k: int): Instant {
    wallClock + (6 * k - 36) * HOUR
  }

  /** The offset as the source measures it, through `Date.UTC` of the local fields. */
  function MeasuredOffset(probe: Instant, zone: Zone): int {
    DateUtc(ZonedParts(probe, zone)) - probe
  }

  ghost predicate IsProbedOffset(wallClock: Instant, zone: Zone, offset: int) {
    exists k :: 0 <= k < PROBES && offset == MeasuredOffset(Probe(wallClock, k), zone)
  }

  /** An instant the source considers, and keeps. */
  ghost predicate IsCandidate(wanted: Fields, zone: Zone, t: Instant) {
    IsProbedOffset(DateUtc(wanted), zone, DateUtc(wanted) - t) && ZonedParts(t, zone) == wanted
  }

  /** The earliest candidate, or the error when there is none. */
  ghost predicate IsResolution(wanted: Fields, zone: Zone, r: Result<Instant, CalendarError>) {
    match r
    case Ok(t) => IsCandidate(wanted, zone, t) && forall u :: IsCandidate(wanted, zone, u) ==> t <= u
    case Err(e) => e == DoesNotExist && forall u :: !IsCandidate(wanted, zone, u)
  }

  /**
   `localDateTimeToInstant`: collects the measured offsets, keeps the instants that show the
   wanted fields, and takes the earliest.
   */
  method LocalDateTimeToInstant(text: string, zone: Zone) returns (r: Result<Instant, CalendarError>)
    ensures Parse(text).Err? ==> r == Err(Parse(text).error)
    ensures Parse(text).Ok? ==> IsResolution(Parse(text).value, zone, r)
  {
    hide Parse, ZonedParts, MeasuredOffset, DateUtc, Probe;
    if Parse(text).Err? {
      return Err(Parse(text).error);
    }
    var wanted := Parse(text).value;
    var wallClock := DateUtc(wanted);
    var offsets: seq<int> := [];
    for k := 0 to PROBES
      invariant forall j :: 0 <= j < k ==> MeasuredOffset(Probe(wallClock, j), zone) in offsets
      invariant forall o :: o in offsets ==> IsProbedOffset(wallClock, zone, o)
    {
      var offset := MeasuredOffset(Probe(wallClock, k), zone);
      if offset !in offsets {
        offsets := offsets + [offset];
      }
    }
    var resolved: Option<Instant> := None;
    for i := 0 to |offsets|
      invariant resolved.Some? ==> IsCandidate(wanted, zone, resolved.value)
      invariant forall j :: 0 <= j < i && ZonedParts(wallClock - offsets[j], zone) == wanted ==>
        resolved.Some? && resolved.value <= wallClock - offsets[j]
    {
      var candidate := wallClock - offsets[i];
      assert wallClock - candidate == offsets[i];
      if ZonedParts(candidate, zone) == wanted && (resolved.None? || candidate < resolved.value) {
        resolved := Some(candidate);
      }
    }
    forall t | IsCandidate(wanted, zone, t) ensures resolved.Some? && resolved.value <= t {
      var i :| 0 <= i < |offsets| && offsets[i] == wallClock - t;
      assert wallClock - offsets[i] == t;
    }
    r := if resolved.Some? then Ok(resolved.value) else Err(DoesNotExist);
  }
}
