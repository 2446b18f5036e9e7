/** The event time-window extractor of main.go: parseICalTime and parseEvent. */
module Extractor {
  import opened Wrappers
  import opened Civil
  import opened GoTime
  import opened ICal

  /** Why an event is dropped: no DTSTART, a value that does not fit its layout, or a
      TZID that names no known zone. */
  datatype ParseError = MissingDtStart | BadTimestamp(value: string) | UnknownTimeZone(name: string)

  /** The record returned for an event in the window. */
  datatype Event = Event(
    uid: string,
    summary: string,
    description: string,
    location: string,
    start: Time,
    end: Time,
    allDay: bool)

  predicate HasZuluSuffix(value: string) {
    |value| > 0 && value[|value| - 1] == 'Z'
  }

  /** The zone a date-time without a Z suffix is read in: the zone named by the first TZID
      entry, an error when that name does not resolve, the local zone when there is none. */
  function ReadingZone(prop: Property, env: TimeEnv): Result<Location, ParseError> {
    match FirstParam(prop.params, "TZID")
    case None => Success(env.Local())
    case Some(name) =>
      match LoadLocation(env, name)
      case None => Failure(UnknownTimeZone(name))
      case Some(loc) => Success(loc)
  }

  /** parseICalTime: a value ending in Z is read in UTC whatever its TZID says; any other
      is read as wall-clock time in the zone ReadingZone selects, and fails with that
      zone's error when the zone does not resolve. A value that does not fit its layout
      fails with BadTimestamp. */
  function ParseICalTime(value: string, prop: Property, env: TimeEnv): (r: Result<Time, ParseError>)
    ensures r.Success? && HasZuluSuffix(value) ==> r.value.loc == UTC
    ensures r.Success? && !HasZuluSuffix(value) ==> ReadingZone(prop, env) == Success(r.value.loc)
    ensures r.Failure? && !HasZuluSuffix(value) && ReadingZone(prop, env).Failure? ==>
              r.error == ReadingZone(prop, env).error
    ensures r.Failure? && (HasZuluSuffix(value) || ReadingZone(prop, env).Success?) ==>
              r.error == BadTimestamp(value)
  {
    if HasZuluSuffix(value) then
      match ParseUtc(value)
      case None => Failure(BadTimestamp(value))
      case Some(t) => Success(t)
    else
      var loc :- ReadingZone(prop, env);
      match ParseInLocation(value, loc)
      case None => Failure(BadTimestamp(value))
      case Some(t) => Success(t)
  }

  /** What ParseICalTime accepts is its result written in layout "20060102T150405": in UTC
      followed by Z, or in the zone ReadingZone selects. */
  lemma ParseICalTimeReadsBack(value: string, prop: Property, env: TimeEnv, t: Time)
    requires ParseICalTime(value, prop, env) == Success(t)
    ensures InLayoutRange(t)
    ensures HasZuluSuffix(value) ==> t.loc == UTC && Format(t) + "Z" == value
    ensures !HasZuluSuffix(value) ==> ReadingZone(prop, env) == Success(t.loc) && Format(t) == value
  {
    if HasZuluSuffix(value) {
      ParseUtcReadsBack(value);
    } else {
      ParseInLocationReadsBack(value, t.loc);
    }
  }

  /** A time written in UTC with the Z suffix parses to itself, whatever the property's
      TZID says, even a zone that does not resolve. */
  lemma ZuluValueIgnoresTzid(t: Time, prop: Property, env: TimeEnv)
    requires t.loc == UTC && InLayoutRange(t)
    ensures ParseICalTime(Format(t) + "Z", prop, env) == Success(t)
  {
    var v := Format(t) + "Z";
    assert v[|v| - 1] == 'Z';
    ParseUtcOfFormat(t);
  }

  /** A time written without suffix in the zone its property selects parses to itself. */
  lemma ZonedValueParses(t: Time, prop: Property, env: TimeEnv)
    requires ReadingZone(prop, env) == Success(t.loc) && InLayoutRange(t)
    ensures ParseICalTime(Format(t), prop, env) == Success(t)
  {
    assert !HasZuluSuffix(Format(t));
    ParseInLocationOfFormat(t);
  }

  /** How a value without Z finds its zone from the parameter map: with TZID absent or an
      empty list it is read in the local zone; otherwise the first entry decides, read in its
      zone when the name resolves and an error, never the local zone, when it does not. */
  lemma ZoneOfUnsuffixedValue(value: string, prop: Property, env: TimeEnv)
    requires !HasZuluSuffix(value)
    ensures ("TZID" !in prop.params || prop.params["TZID"] == []) && ParseICalTime(value, prop, env).Success? ==>
              ParseICalTime(value, prop, env).value.loc == env.Local()
    ensures "TZID" in prop.params && prop.params["TZID"] != []
            && LoadLocation(env, prop.params["TZID"][0]).None? ==>
              ParseICalTime(value, prop, env) == Failure(UnknownTimeZone(prop.params["TZID"][0]))
    ensures "TZID" in prop.params && prop.params["TZID"] != []
            && LoadLocation(env, prop.params["TZID"][0]).Some? && ParseICalTime(value, prop, env).Success? ==>
              ParseICalTime(value, prop, env).value.loc == LoadLocation(env, prop.params["TZID"][0]).value
  {
  }

  /** The start, end and kind of an event, before the TZID re-expression. */
  datatype Span = Span(start: Time, end: Time, allDay: bool)

  /** VALUE=DATE on DTSTART: the first VALUE entry is DATE. */
  predicate IsAllDay(start: Property) {
    FirstParam(start.params, "VALUE") == Some("DATE")
  }

  /** time.Parse("20060102", value) as a result: midnight UTC of the date written in value. */
  function ParseAllDayDate(value: string): (r: Result<Time, ParseError>)
    ensures r.Success? ==> r.value.loc == UTC
    ensures r.Failure? ==> r.error == BadTimestamp(value)
  {
    match ParseDate(value)
    case None => Failure(BadTimestamp(value))
    case Some(t) => Success(t)
  }

  /** What ParseAllDayDate accepts is a date in layout "20060102", and the result is the
      midnight in UTC of that date. */
  lemma ParseAllDayDateReadsBack(value: string, t: Time)
    requires ParseAllDayDate(value) == Success(t)
    ensures t.loc == UTC && InLayoutRange(t) && Reading(t).1 == Midnight && FormatDate(Reading(t).0) == value
  {
    ParseDateReadsBack(value, t);
  }

  /** Every date of years 0 to 9999 written in layout "20060102" is accepted as the start of
      its day number, in UTC. */
  lemma AllDayDateOfFormat(d: Date)
    requires ValidDate(d) && 0 <= d.year <= 9999
    ensures ParseAllDayDate(FormatDate(d)) == Success(Time(DaysFromCivil(d) * SecondsPerDay, UTC))
  {
    var t := TimeAt(d, Midnight, UTC);
    MidnightAt(d, UTC);
    assert t == Time(DaysFromCivil(d) * SecondsPerDay, UTC);
    ParseDateOfFormat(d);
    AcceptedDate(FormatDate(d), t);
  }

  /** ParseAllDayDate succeeds with whatever ParseDate accepts. */
  lemma AcceptedDate(value: string, t: Time)
    requires ParseDate(value) == Some(t)
    ensures ParseAllDayDate(value) == Success(t)
  {
  }

  /** Start and end of an event (main.go:141-175): an all-day event's dates are midnights UTC,
      its end a day after its start when DTEND is absent; a timed event's values go through
      ParseICalTime, its end equal to its start when DTEND is absent. */
  function ParseSpan(start: Property, end: Option<Property>, env: TimeEnv): (r: Result<Span, ParseError>)
    ensures r.Success? ==> r.value.allDay == IsAllDay(start)
    ensures r.Success? && end.None? ==>
              r.value.end == (if IsAllDay(start) then r.value.start.Add(SecondsPerDay) else r.value.start)
    ensures r.Success? && IsAllDay(start) ==> ParseAllDayDate(start.value) == Success(r.value.start)
    ensures r.Success? && IsAllDay(start) && end.Some? ==>
              ParseAllDayDate(end.value.value) == Success(r.value.end)
    ensures r.Success? && !IsAllDay(start) ==> ParseICalTime(start.value, start, env) == Success(r.value.start)
    ensures r.Success? && !IsAllDay(start) && end.Some? ==>
              ParseICalTime(end.value.value, end.value, env) == Success(r.value.end)
    ensures IsAllDay(start) ==>
              (r.Failure? <==> ParseAllDayDate(start.value).Failure?
                               || (end.Some? && ParseAllDayDate(end.value.value).Failure?))
    ensures r.Failure? && IsAllDay(start) ==>
              r.error == (if ParseAllDayDate(start.value).Failure? then ParseAllDayDate(start.value).error
                          else ParseAllDayDate(end.value.value).error)
    ensures !IsAllDay(start) ==>
              (r.Failure? <==> ParseICalTime(start.value, start, env).Failure?
                               || (end.Some? && ParseICalTime(end.value.value, end.value, env).Failure?))
    ensures r.Failure? && !IsAllDay(start) ==>
              r.error == (if ParseICalTime(start.value, start, env).Failure? then ParseICalTime(start.value, start, env).error
                          else ParseICalTime(end.value.value, end.value, env).error)
  {
    if IsAllDay(start) then
      var s :- ParseAllDayDate(start.value);
      var e :- if end.Some? then ParseAllDayDate(end.value.value) else Success(s.Add(SecondsPerDay));
      Success(Span(s, e, true))
    else
      var s :- ParseICalTime(start.value, start, env);
      var e :- if end.Some? then ParseICalTime(end.value.value, end.value, env) else Success(s);
      Success(Span(s, e, false))
  }

  /** One re-expression step (main.go:178-185, 187-196): show t in the zone of the first
      TZID entry when that name resolves; otherwise leave t as it is. */
  function InTzid(t: Time, prop: Property, env: TimeEnv): (r: Time)
    ensures r.instant == t.instant
    ensures r.loc != t.loc ==> exists name :: FirstParam(prop.params, "TZID") == Some(name)
                                              && LoadLocation(env, name) == Some(r.loc)
    ensures "TZID" in prop.params && prop.params["TZID"] != []
            && LoadLocation(env, prop.params["TZID"][0]).Some? ==>
              r.loc == LoadLocation(env, prop.params["TZID"][0]).value
  {
    match FirstParam(prop.params, "TZID")
    case None => t
    case Some(name) =>
      match LoadLocation(env, name)
      case None => t
      case Some(loc) => t.In(loc)
  }

  /** Both re-expression steps; the end is re-expressed only when DTEND is present. */
  function Reexpress(span: Span, start: Property, end: Option<Property>, env: TimeEnv): (r: Span)
    ensures r.start.instant == span.start.instant && r.end.instant == span.end.instant
    ensures r.allDay == span.allDay
  {
    Span(InTzid(span.start, start, env),
         if end.Some? then InTzid(span.end, end.value, env) else span.end,
         span.allDay)
  }

  /** The window test of main.go:199: the event ends after the window starts and starts
      before the window ends. */
  predicate Overlaps(start: int, end: int, windowStart: int, windowEnd: int) {
    end > windowStart && start < windowEnd
  }

  /** The value of the first property with that name, or "" when there is none. */
  function TextOf(props: seq<Property>, name: string): string {
    match GetProperty(props, name)
    case None => ""
    case Some(p) => p.value
  }

  /** parseEvent, with absent SUMMARY, DESCRIPTION, LOCATION and UID read as "". A missing
      DTSTART and every error of ParseSpan drop the event; otherwise the event is returned
      exactly when its instants pass the window test, which the re-expression step does not
      affect, and then carries the property values verbatim. */
  function ParseEvent(props: seq<Property>, env: TimeEnv, targetStart: Time, targetEnd: Time)
    : (r: Result<Option<Event>, ParseError>)
    ensures GetProperty(props, DtStart).None? ==> r == Failure(MissingDtStart)
    ensures GetProperty(props, DtStart).Some? ==>
              var span := ParseSpan(GetProperty(props, DtStart).value, GetProperty(props, DtEnd), env);
              && (span.Failure? ==> r == Failure(span.error))
              && (span.Success? ==>
                    && r.Success?
                    && (r.value.Some? <==> Overlaps(span.value.start.instant, span.value.end.instant,
                                                    targetStart.instant, targetEnd.instant))
                    && (r.value.Some? ==>
                          && r.value.value.start.instant == span.value.start.instant
                          && r.value.value.end.instant == span.value.end.instant
                          && r.value.value.allDay == span.value.allDay
                          && r.value.value.start == InTzid(span.value.start, GetProperty(props, DtStart).value, env)
                          && r.value.value.end == (if GetProperty(props, DtEnd).Some?
                                                   then InTzid(span.value.end, GetProperty(props, DtEnd).value, env)
                                                   else span.value.end)))
    ensures r.Success? && r.value.Some? ==>
              && r.value.value.uid == TextOf(props, Uid)
              && r.value.value.summary == TextOf(props, Summary)
              && r.value.value.description == TextOf(props, Description)
              && r.value.value.location == TextOf(props, LocationName)
  {
    match GetProperty(props, DtStart)
    case None => Failure(MissingDtStart)
    case Some(start) =>
      var end := GetProperty(props, DtEnd);
      var raw :- ParseSpan(start, end, env);
      var span := Reexpress(raw, start, end, env);
      if span.end.After(targetStart) && span.start.Before(targetEnd) then
        Success(Some(Event(TextOf(props, Uid), TextOf(props, Summary), TextOf(props, Description),
                           TextOf(props, LocationName), span.start, span.end, span.allDay)))
      else
        Success(None)
  }

  /** A DTSTART that ParseDate or ParseICalTime rejects drops the event with that error,
      whatever DTEND holds; for a date that does not fit "20060102" the error names the
      value. */
  lemma MalformedStartIsError(props: seq<Property>, env: TimeEnv, targetStart: Time, targetEnd: Time)
    requires GetProperty(props, DtStart).Some?
    requires var start := GetProperty(props, DtStart).value;
             if IsAllDay(start) then ParseDate(start.value).None? else ParseICalTime(start.value, start, env).Failure?
    ensures var start := GetProperty(props, DtStart).value;
            ParseEvent(props, env, targetStart, targetEnd)
              == Failure(if IsAllDay(start) then BadTimestamp(start.value) else ParseICalTime(start.value, start, env).error)
  {
  }

  /** Whether parseEvent as written runs to completion or stops on a nil pointer. */
  datatype AsWritten = Returned(result: Result<Option<Event>, ParseError>) | NilDereference(property: string)

  /** The text properties in the order main.go:201-204 reads them when it builds the record. */
  const TextProperties: seq<string> := [Uid, Summary, Description, LocationName]

  /** The text properties are all present. */
  predicate HasAllText(props: seq<Property>) {
    forall i :: 0 <= i < |TextProperties| ==> GetProperty(props, TextProperties[i]).Some?
  }

  /** The record-building step of main.go:200-208 as written, applied to what parseEvent
      would otherwise return: for an event in the window it reads .Value of UID, SUMMARY,
      DESCRIPTION and LOCATION in that order, and the first absent one is a nil pointer. */
  function DereferenceText(props: seq<Property>, parsed: Result<Option<Event>, ParseError>): (r: AsWritten)
    ensures r.Returned? ==> r.result == parsed
    ensures r.NilDereference? <==> parsed.Success? && parsed.value.Some? && !HasAllText(props)
    ensures r.NilDereference? ==>
              exists i :: 0 <= i < |TextProperties| && r.property == TextProperties[i]
                          && GetProperty(props, r.property).None?
                          && forall j :: 0 <= j < i ==> GetProperty(props, TextProperties[j]).Some?
  {
    if parsed.Success? && parsed.value.Some? then
      if GetProperty(props, TextProperties[0]).None? then
        NilDereference(TextProperties[0])
      else if GetProperty(props, TextProperties[1]).None? then
        NilDereference(TextProperties[1])
      else if GetProperty(props, TextProperties[2]).None? then
        NilDereference(TextProperties[2])
      else if GetProperty(props, TextProperties[3]).None? then
        NilDereference(TextProperties[3])
      else
        assert HasAllText(props) by {
          forall i | 0 <= i < |TextProperties| ensures GetProperty(props, TextProperties[i]).Some? {
            assert i == 0 || i == 1 || i == 2 || i == 3;
          }
        }
        Returned(parsed)
    else Returned(parsed)
  }

  /** parseEvent exactly as written: everything as in ParseEvent, except that an event in
      the window with an absent UID, SUMMARY, DESCRIPTION or LOCATION ends the request. */
  function ParseEventAsWritten(props: seq<Property>, env: TimeEnv, targetStart: Time, targetEnd: Time)
    : (r: AsWritten)
    ensures var parsed := ParseEvent(props, env, targetStart, targetEnd);
            && (r.Returned? ==> r.result == parsed)
            && (r.NilDereference? <==> parsed.Success? && parsed.value.Some? && !HasAllText(props))
  {
    DereferenceText(props, ParseEvent(props, env, targetStart, targetEnd))
  }

  /** An event whose only property is a DTSTART in UTC, requested for a window that holds
      its start strictly inside, stops the request with a nil dereference of UID as written,
      while ParseEvent returns it with empty text fields and end == start. */
  lemma DtStartOnlyEventDereferencesNil(t: Time, env: TimeEnv, targetStart: Time, targetEnd: Time)
    requires t.loc == UTC && InLayoutRange(t)
    requires targetStart.instant < t.instant < targetEnd.instant
    ensures var props := [Property(DtStart, Format(t) + "Z", map[])];
            && ParseEventAsWritten(props, env, targetStart, targetEnd) == NilDereference(Uid)
            && ParseEvent(props, env, targetStart, targetEnd) == Success(Some(Event("", "", "", "", t, t, false)))
  {
    var start := Property(DtStart, Format(t) + "Z", map[]);
    var props := [start];
    ZuluValueIgnoresTzid(t, start, env);
    assert GetProperty(props, DtStart) == Some(start);
    assert GetProperty(props, DtEnd).None?;
    assert GetProperty(props, Uid).None?;
    assert GetProperty(props, Summary).None?;
    assert GetProperty(props, Description).None?;
    assert GetProperty(props, LocationName).None?;
    assert !IsAllDay(start);
  }

  predicate InSpan(x: int, start: int, end: int) {
    start <= x < end
  }

  /** For an event of positive length the window test is the intersection of the
      half-open intervals [start, end) and [windowStart, windowEnd) of a non-empty window. */
  lemma OverlapIsSharedInstant(start: int, end: int, windowStart: int, windowEnd: int)
    requires start < end && windowStart < windowEnd
    ensures Overlaps(start, end, windowStart, windowEnd)
            <==> exists x :: InSpan(x, start, end) && InSpan(x, windowStart, windowEnd)
  {
    if Overlaps(start, end, windowStart, windowEnd) {
      var x := if start < windowStart then windowStart else start;
      assert InSpan(x, start, end) && InSpan(x, windowStart, windowEnd);
    }
  }

  /** An all-day event dated d (years 0 to 9999) with no DTEND spans
      [midnight UTC of d, midnight UTC of the next day), is flagged all-day, and is
      returned exactly when that span passes the window test. */
  lemma AllDayWithoutEnd(props: seq<Property>, env: TimeEnv, d: Date, targetStart: Time, targetEnd: Time)
    requires ValidDate(d) && 0 <= d.year <= 9999
    requires GetProperty(props, DtStart).Some? && IsAllDay(GetProperty(props, DtStart).value)
    requires GetProperty(props, DtStart).value.value == FormatDate(d)
    requires GetProperty(props, DtEnd).None?
    ensures var dayStart := DaysFromCivil(d) * SecondsPerDay;
            && ParseEvent(props, env, targetStart, targetEnd).Success?
            && (ParseEvent(props, env, targetStart, targetEnd).value.Some? <==>
                  Overlaps(dayStart, dayStart + SecondsPerDay, targetStart.instant, targetEnd.instant))
            && (ParseEvent(props, env, targetStart, targetEnd).value.Some? ==>
                  var e := ParseEvent(props, env, targetStart, targetEnd).value.value;
                  e.allDay && e.start.instant == dayStart
                  && e.end.instant == dayStart + SecondsPerDay == DaysFromCivil(NextDay(d)) * SecondsPerDay)
  {
    var start := GetProperty(props, DtStart).value;
    var dayStart := DaysFromCivil(d) * SecondsPerDay;
    AllDayDateOfFormat(d);
    var s := Time(dayStart, UTC);
    var span := ParseSpan(start, GetProperty(props, DtEnd), env);
    assert span.Success? && span.value.start == s;
    NextDayIsNextNumber(d);
    DayStartShift(DaysFromCivil(d), 1);
  }

  /** A timed event with no DTEND has end == start and is returned only when its start lies
      strictly inside the window: one starting exactly at the window's start is left out. */
  lemma TimedWithoutEnd(props: seq<Property>, env: TimeEnv, t: Time, targetStart: Time, targetEnd: Time)
    requires GetProperty(props, DtStart).Some? && !IsAllDay(GetProperty(props, DtStart).value)
    requires GetProperty(props, DtEnd).None?
    requires ParseICalTime(GetProperty(props, DtStart).value.value, GetProperty(props, DtStart).value, env)
             == Success(t)
    ensures ParseEvent(props, env, targetStart, targetEnd).Success?
    ensures ParseEvent(props, env, targetStart, targetEnd).value.Some?
            <==> targetStart.instant < t.instant < targetEnd.instant
    ensures ParseEvent(props, env, targetStart, targetEnd).value.Some? ==>
              var e := ParseEvent(props, env, targetStart, targetEnd).value.value;
              e.start.instant == e.end.instant == t.instant
  {
  }

  /** Because ParseDate reads a bare date as midnight UTC, a viewer west of UTC sees an
      all-day event without DTEND also in the window of the local day before it. */
  lemma AllDaySpillsIntoPreviousLocalDay(props: seq<Property>, env: TimeEnv, d: Date)
    requires ValidDate(d) && 0 <= d.year <= 9999
    requires GetProperty(props, DtStart).Some? && IsAllDay(GetProperty(props, DtStart).value)
    requires GetProperty(props, DtStart).value.value == FormatDate(d)
    requires GetProperty(props, DtEnd).None?
    requires -SecondsPerDay < env.localOffset < 0
    ensures var windowStart := TimeAt(PrevDay(d), Midnight, env.Local());
            ParseEvent(props, env, windowStart, windowStart.Add(SecondsPerDay)).Success?
            && ParseEvent(props, env, windowStart, windowStart.Add(SecondsPerDay)).value.Some?
  {
    var windowStart := TimeAt(PrevDay(d), Midnight, env.Local());
    NextDayIsNextNumber(PrevDay(d));
    AllDayWithoutEnd(props, env, d, windowStart, windowStart.Add(SecondsPerDay));
  }

  /** Likewise a viewer east of UTC sees it also in the window of the local day after it. */
  lemma AllDaySpillsIntoNextLocalDay(props: seq<Property>, env: TimeEnv, d: Date)
    requires ValidDate(d) && 0 <= d.year <= 9999
    requires GetProperty(props, DtStart).Some? && IsAllDay(GetProperty(props, DtStart).value)
    requires GetProperty(props, DtStart).value.value == FormatDate(d)
    requires GetProperty(props, DtEnd).None?
    requires 0 < env.localOffset < SecondsPerDay
    ensures var windowStart := TimeAt(NextDay(d), Midnight, env.Local());
            ParseEvent(props, env, windowStart, windowStart.Add(SecondsPerDay)).Success?
            && ParseEvent(props, env, windowStart, windowStart.Add(SecondsPerDay)).value.Some?
  {
    var windowStart := TimeAt(NextDay(d), Midnight, env.Local());
    NextDayIsNextNumber(d);
    AllDayWithoutEnd(props, env, d, windowStart, windowStart.Add(SecondsPerDay));
  }

  /** Only where the local zone is UTC does an all-day event without DTEND fall in the
      window of its own date and of no other. */
  lemma AllDayInUtcMatchesOnlyItsDate(props: seq<Property>, env: TimeEnv, d: Date, day: Date)
    requires ValidDate(d) && 0 <= d.year <= 9999 && ValidDate(day)
    requires GetProperty(props, DtStart).Some? && IsAllDay(GetProperty(props, DtStart).value)
    requires GetProperty(props, DtStart).value.value == FormatDate(d)
    requires GetProperty(props, DtEnd).None?
    requires env.localOffset == 0
    ensures var windowStart := TimeAt(day, Midnight, env.Local());
            ParseEvent(props, env, windowStart, windowStart.Add(SecondsPerDay)).Success?
            && (ParseEvent(props, env, windowStart, windowStart.Add(SecondsPerDay)).value.Some? <==> day == d)
  {
    var windowStart := TimeAt(day, Midnight, env.Local());
    AllDayWithoutEnd(props, env, d, windowStart, windowStart.Add(SecondsPerDay));
    var n, m := DaysFromCivil(d), DaysFromCivil(day);
    MidnightAt(day, env.Local());
    assert windowStart.instant == m * SecondsPerDay;
    if n < m {
      DayStartsApart(n, m);
    } else if m < n {
      DayStartsApart(m, n);
    } else {
      DaysFromCivilInjective(d, day);
    }
  }
}
