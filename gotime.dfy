/** The part of Go's time package the service relies on: instants tagged with a zone,
    zone lookup by name, and the two layouts "20060102" and "20060102T150405". Zones have
    a fixed offset; there are no daylight-saving transitions. */
module GoTime {
  import opened Wrappers
  import opened Decimal
  import opened Civil

  const SecondsPerDay: int := 86400

  /** Day starts are linear in the day number: k days after day n starts k days' worth of
      seconds later. */
  lemma DayStartShift(n: int, k: int)
    ensures (n + k) * SecondsPerDay == n * SecondsPerDay + k * SecondsPerDay
  {
  }

  /** The starts of distinct days are at least a day apart. */
  lemma DayStartsApart(a: int, b: int)
    requires a < b
    ensures a * SecondsPerDay + SecondsPerDay <= b * SecondsPerDay
  {
    DayStartShift(a + 1, b - a - 1);
    DayStartShift(a, 1);
  }

  /** A time zone: its name and its offset east of UTC, in seconds. */
  datatype Location = Location(name: string, offset: int)

  const UTC: Location := Location("UTC", 0)

  /** An instant, in seconds since 1970-01-01T00:00:00Z, with the zone it is shown in.
      Comparisons look at the instant only. */
  datatype Time = Time(instant: int, loc: Location) {

    /** t.In(loc): the same instant shown in another zone. */
    function In(l: Location): Time {
      Time(instant, l)
    }

    /** t.Add(d) for a whole number of seconds. */
    function Add(seconds: int): Time {
      Time(instant + seconds, loc)
    }

    predicate Before(u: Time) {
      instant < u.instant
    }

    predicate After(u: Time) {
      instant > u.instant
    }
  }

  /** The process's view of time zones: the zone database as a map from name to offset,
      and the offset of the local zone. */
  datatype TimeEnv = TimeEnv(tzdb: map<string, int>, localOffset: int) {

    function Local(): Location {
      Location("Local", localOffset)
    }
  }

  /** time.LoadLocation: "" and "UTC" name UTC, "Local" names the local zone, any other
      name is looked up in the zone database and is an error when it is not there. */
  function LoadLocation(env: TimeEnv, name: string): Option<Location> {
    if name == "" || name == "UTC" then Some(UTC)
    else if name == "Local" then Some(env.Local())
    else if name in env.tzdb then Some(Location(name, env.tzdb[name]))
    else None
  }

  datatype TimeOfDay = TimeOfDay(hour: int, minute: int, second: int)

  const Midnight: TimeOfDay := TimeOfDay(0, 0, 0)

  predicate ValidTimeOfDay(c: TimeOfDay) {
    0 <= c.hour < 24 && 0 <= c.minute < 60 && 0 <= c.second < 60
  }

  function SecondsOfDay(c: TimeOfDay): int {
    (c.hour * 60 + c.minute) * 60 + c.second
  }

  /** Seconds since the epoch that a clock in t's zone shows at t. */
  function WallClock(t: Time): int {
    t.instant + t.loc.offset
  }

  /** The date and time of day a clock in t's zone shows at t. */
  function Reading(t: Time): (r: (Date, TimeOfDay))
    ensures ValidDate(r.0) && ValidTimeOfDay(r.1)
    ensures DaysFromCivil(r.0) * SecondsPerDay + SecondsOfDay(r.1) == WallClock(t)
  {
    var wall := WallClock(t);
    var secs := wall % SecondsPerDay;
    (CivilFromDays(wall / SecondsPerDay), TimeOfDay(secs / 3600, secs % 3600 / 60, secs % 60))
  }

  /** A date and time of day that add up to t's wall clock are t's reading. */
  lemma ReadingUnique(t: Time, d: Date, c: TimeOfDay)
    requires ValidDate(d) && ValidTimeOfDay(c)
    requires DaysFromCivil(d) * SecondsPerDay + SecondsOfDay(c) == WallClock(t)
    ensures Reading(t) == (d, c)
  {
    var n := DaysFromCivil(d);
    var secs := SecondsOfDay(c);
    ClockSplit(c);
    DaySplit(n, secs);
    var wall := WallClock(t);
    assert wall / SecondsPerDay == n && wall % SecondsPerDay == secs;
    CivilOfDayNumber(d);
    assert Reading(t).0 == d;
  }

  /** A day number and a second within that day are recovered by division. */
  lemma DaySplit(n: int, secs: int)
    requires 0 <= secs < SecondsPerDay
    ensures (n * SecondsPerDay + secs) / SecondsPerDay == n
    ensures (n * SecondsPerDay + secs) % SecondsPerDay == secs
  {
  }

  /** The hour, minute and second of a valid time of day are recovered by division. */
  lemma ClockSplit(c: TimeOfDay)
    requires ValidTimeOfDay(c)
    ensures 0 <= SecondsOfDay(c) < SecondsPerDay
    ensures SecondsOfDay(c) / 3600 == c.hour
    ensures SecondsOfDay(c) % 3600 / 60 == c.minute
    ensures SecondsOfDay(c) % 60 == c.second
  {
    var secs := SecondsOfDay(c);
    assert secs == c.hour * 3600 + (c.minute * 60 + c.second);
    assert secs % 3600 == c.minute * 60 + c.second;
  }

  /** time.Date(year, month, day, hour, min, sec, 0, loc) for a valid date and time of day:
      the instant at which a clock in loc shows them. */
  function TimeAt(d: Date, c: TimeOfDay, loc: Location): Time
    requires ValidDate(d) && ValidTimeOfDay(c)
  {
    Time(DaysFromCivil(d) * SecondsPerDay + SecondsOfDay(c) - loc.offset, loc)
  }

  /** Midnight of d in loc is the start of d's day number, less loc's offset. */
  lemma MidnightAt(d: Date, loc: Location)
    requires ValidDate(d)
    ensures TimeAt(d, Midnight, loc) == Time(DaysFromCivil(d) * SecondsPerDay - loc.offset, loc)
  {
    assert SecondsOfDay(Midnight) == 0;
  }

  /** A clock in loc shows d and c at TimeAt(d, c, loc). */
  lemma ReadingOfTimeAt(d: Date, c: TimeOfDay, loc: Location)
    requires ValidDate(d) && ValidTimeOfDay(c)
    ensures Reading(TimeAt(d, c, loc)) == (d, c)
  {
    var n := DaysFromCivil(d);
    var t := Time(n * SecondsPerDay + SecondsOfDay(c) - loc.offset, loc);
    assert WallClock(t) == n * SecondsPerDay + SecondsOfDay(c);
    ReadingUnique(t, d, c);
  }

  /** Every time is the instant at which its own zone's clock shows its reading. */
  lemma TimeAtReading(t: Time)
    ensures TimeAt(Reading(t).0, Reading(t).1, t.loc) == t
  {
  }

  /** Years that the four-digit year field of a layout can hold. */
  predicate InLayoutRange(t: Time) {
    0 <= Reading(t).0.year <= 9999
  }

  /** A date in layout "20060102". */
  function FormatDate(d: Date): (s: string)
    requires ValidDate(d) && 0 <= d.year <= 9999
    ensures |s| == 8 && AllDigits(s)
  {
    Digits(d.year, 4) + Digits(d.month, 2) + Digits(d.day, 2)
  }

  /** A date and time of day in layout "20060102T150405". */
  function FormatStamp(d: Date, c: TimeOfDay): (s: string)
    requires ValidDate(d) && 0 <= d.year <= 9999 && ValidTimeOfDay(c)
    ensures |s| == 15 && s[8] == 'T' && IsDigit(s[14])
  {
    FormatDate(d) + "T" + Digits(c.hour, 2) + Digits(c.minute, 2) + Digits(c.second, 2)
  }

  /** t.Format("20060102T150405"): t as a clock in its own zone shows it. */
  function Format(t: Time): string
    requires InLayoutRange(t)
  {
    FormatStamp(Reading(t).0, Reading(t).1)
  }

  /** The fields of a "20060102" value: exactly eight digits, a month in 1..12 and a day
      that exists in that month. */
  function ParseDateFields(s: string): (r: Option<Date>)
    ensures r.Some? ==> ValidDate(r.value) && 0 <= r.value.year <= 9999
  {
    if |s| == 8 && AllDigits(s) then
      AllDigitsSlice(s, 0, 4);
      AllDigitsSlice(s, 4, 6);
      AllDigitsSlice(s, 6, 8);
      assert Pow10(4) == 10000;
      var d := Date(Value(s[..4]), Value(s[4..6]), Value(s[6..]));
      if 1 <= d.month <= 12 && 1 <= d.day <= DaysInMonth(d.year, d.month) then Some(d) else None
    else None
  }

  /** The fields of a "20060102T150405" value: a date as above, the letter T, and an hour
      below 24, a minute and a second below 60, each two digits. */
  function ParseStampFields(s: string): (r: Option<(Date, TimeOfDay)>)
    ensures r.Some? ==> ValidDate(r.value.0) && 0 <= r.value.0.year <= 9999 && ValidTimeOfDay(r.value.1)
  {
    if |s| == 15 && s[8] == 'T' && AllDigits(s[9..11]) && AllDigits(s[11..13]) && AllDigits(s[13..]) then
      match ParseDateFields(s[..8])
      case None => None
      case Some(d) =>
        var c := TimeOfDay(Value(s[9..11]), Value(s[11..13]), Value(s[13..]));
        if ValidTimeOfDay(c) then Some((d, c)) else None
    else None
  }

  /** Whatever ParseDateFields accepts is the layout's rendering of the date it returns. */
  lemma ParseDateFieldsReadsBack(s: string)
    requires ParseDateFields(s).Some?
    ensures FormatDate(ParseDateFields(s).value) == s
  {
    AllDigitsSlice(s, 0, 4);
    AllDigitsSlice(s, 4, 6);
    AllDigitsSlice(s, 6, 8);
    assert ParseDateFields(s).value == Date(Value(s[..4]), Value(s[4..6]), Value(s[6..]));
    FormatOfDigitFields(s[..4], s[4..6], s[6..]);
    assert s == s[..4] + s[4..6] + s[6..];
  }

  /** Four, two and two digits read as a date are written back as the same digits. */
  lemma FormatOfDigitFields(year: string, month: string, day: string)
    requires |year| == 4 && |month| == 2 && |day| == 2
    requires AllDigits(year) && AllDigits(month) && AllDigits(day)
    requires ValidDate(Date(Value(year), Value(month), Value(day)))
    ensures 0 <= Value(year) <= 9999
    ensures FormatDate(Date(Value(year), Value(month), Value(day))) == year + month + day
  {
    assert Pow10(4) == 10000;
    DigitsOfValue(year);
    DigitsOfValue(month);
    DigitsOfValue(day);
  }

  /** Whatever ParseStampFields accepts is the layout's rendering of what it returns. */
  lemma ParseStampFieldsReadsBack(s: string)
    requires ParseStampFields(s).Some?
    ensures FormatStamp(ParseStampFields(s).value.0, ParseStampFields(s).value.1) == s
  {
    ParseDateFieldsReadsBack(s[..8]);
    DigitsOfValue(s[9..11]);
    DigitsOfValue(s[11..13]);
    DigitsOfValue(s[13..]);
    assert s == s[..8] + "T" + s[9..11] + s[11..13] + s[13..];
  }

  /** time.Parse("20060102", s): midnight UTC of the date written in s. */
  function ParseDate(s: string): (r: Option<Time>)
    ensures r.Some? ==> r.value.loc == UTC
  {
    match ParseDateFields(s)
    case None => None
    case Some(d) => Some(TimeAt(d, Midnight, UTC))
  }

  /** time.Parse("20060102T150405Z", s): the date and time written in s, read in UTC. */
  function ParseUtc(s: string): (r: Option<Time>)
    ensures r.Some? ==> r.value.loc == UTC
  {
    if |s| > 0 && s[|s| - 1] == 'Z' then
      match ParseStampFields(s[..|s| - 1])
      case None => None
      case Some(f) => Some(TimeAt(f.0, f.1, UTC))
    else None
  }

  /** time.ParseInLocation("20060102T150405", s, loc): the date and time written in s,
      read as wall-clock time in loc. */
  function ParseInLocation(s: string, loc: Location): (r: Option<Time>)
    ensures r.Some? ==> r.value.loc == loc
  {
    match ParseStampFields(s)
    case None => None
    case Some(f) => Some(TimeAt(f.0, f.1, loc))
  }

  /** What ParseDate accepts is a date written in layout "20060102"; the result is that
      date's midnight in UTC. */
  lemma ParseDateReadsBack(s: string, t: Time)
    requires ParseDate(s) == Some(t)
    ensures InLayoutRange(t) && Reading(t).1 == Midnight && FormatDate(Reading(t).0) == s
  {
    ReadingOfTimeAt(ParseDateFields(s).value, Midnight, UTC);
    ParseDateFieldsReadsBack(s);
  }

  /** What ParseUtc accepts is its result written in UTC followed by Z. */
  lemma ParseUtcReadsBack(s: string)
    requires ParseUtc(s).Some?
    ensures InLayoutRange(ParseUtc(s).value) && Format(ParseUtc(s).value) + "Z" == s
  {
    var f := ParseStampFields(s[..|s| - 1]).value;
    ReadingOfTimeAt(f.0, f.1, UTC);
    ParseStampFieldsReadsBack(s[..|s| - 1]);
    assert s == s[..|s| - 1] + "Z";
  }

  /** What ParseInLocation accepts is its result written as a clock in loc shows it. */
  lemma ParseInLocationReadsBack(s: string, loc: Location)
    requires ParseInLocation(s, loc).Some?
    ensures InLayoutRange(ParseInLocation(s, loc).value) && Format(ParseInLocation(s, loc).value) == s
  {
    var f := ParseStampFields(s).value;
    ReadingOfTimeAt(f.0, f.1, loc);
    ParseStampFieldsReadsBack(s);
  }

  lemma ParseDateFieldsOfFormat(d: Date)
    requires ValidDate(d) && 0 <= d.year <= 9999
    ensures ParseDateFields(FormatDate(d)) == Some(d)
  {
    var s := FormatDate(d);
    assert s[..4] == Digits(d.year, 4) && s[4..6] == Digits(d.month, 2) && s[6..] == Digits(d.day, 2);
    assert Pow10(4) == 10000 && Pow10(2) == 100;
    ValueOfDigits(d.year, 4);
    ValueOfDigits(d.month, 2);
    ValueOfDigits(d.day, 2);
  }

  lemma ParseStampFieldsOfFormat(d: Date, c: TimeOfDay)
    requires ValidDate(d) && 0 <= d.year <= 9999 && ValidTimeOfDay(c)
    ensures ParseStampFields(FormatStamp(d, c)) == Some((d, c))
  {
    var s := FormatStamp(d, c);
    assert s[..8] == FormatDate(d);
    assert s[9..11] == Digits(c.hour, 2) && s[11..13] == Digits(c.minute, 2) && s[13..] == Digits(c.second, 2);
    assert Pow10(2) == 100;
    ParseDateFieldsOfFormat(d);
    ValueOfDigits(c.hour, 2);
    ValueOfDigits(c.minute, 2);
    ValueOfDigits(c.second, 2);
  }

  /** Every date from year 0 to 9999, written in layout "20060102", parses back to its
      midnight UTC. */
  lemma ParseDateOfFormat(d: Date)
    requires ValidDate(d) && 0 <= d.year <= 9999
    ensures ParseDate(FormatDate(d)) == Some(TimeAt(d, Midnight, UTC))
  {
    ParseDateFieldsOfFormat(d);
  }

  /** Every UTC time in range, formatted and suffixed with Z, parses back to itself. */
  lemma ParseUtcOfFormat(t: Time)
    requires t.loc == UTC && InLayoutRange(t)
    ensures ParseUtc(Format(t) + "Z") == Some(t)
  {
    var s := Format(t) + "Z";
    assert s[..|s| - 1] == Format(t);
    ParseStampFieldsOfFormat(Reading(t).0, Reading(t).1);
    TimeAtReading(t);
  }

  /** Every time in range, formatted in its own zone, parses back to itself in that zone. */
  lemma ParseInLocationOfFormat(t: Time)
    requires InLayoutRange(t)
    ensures ParseInLocation(Format(t), t.loc) == Some(t)
  {
    ParseStampFieldsOfFormat(Reading(t).0, Reading(t).1);
    TimeAtReading(t);
  }
}
