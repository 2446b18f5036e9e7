# caljson event window extractor, in Dafny

caljson is a small Go HTTP service. It fetches an iCalendar (RFC 5545) file and answers
with the JSON list of the events that overlap one local day. The day is today shifted by
a `day` offset. This project models the part of `main.go` that decides that list:

- `parseICalTime`: reading a DTSTART/DTEND date-time as UTC (trailing `Z`), in the zone
  named by the first TZID parameter entry, or in the local zone;
- `parseEvent`: all-day events (`VALUE=DATE`), the defaults for a missing DTEND, the
  TZID re-expression and the half-open overlap test against the day window;
- the `Event` record;
- from `caljsonHandler`: the day window, the loop that keeps VEVENT results and skips
  rejected ones, and the sort by start.

The modules are:

- `Wrappers`: `Option` and `Result`.
- `Decimal`: fixed-width decimal digit fields.
- `Civil`: the proleptic Gregorian calendar. It gives day numbers since 1970-01-01, the
  successor and predecessor dates, and proves that dates and day numbers are in bijection.
- `GoTime`: the part of Go's `time` package the service relies on. An instant is a whole
  number of seconds since the epoch, tagged with a zone. A zone is a name and a fixed
  offset. `LoadLocation` resolves names through an explicit zone table. It also models
  the layouts `20060102`, `20060102T150405Z` and `20060102T150405`, with round-trip
  lemmas in both directions.
- `ICal`: properties with their parameter map, and components (VEVENT or any other kind).
- `Extractor`: `parseICalTime` and `parseEvent`.
- `Handler`: the day window, the collection loop and the in-place sort.

Three behaviours of the code are easy to misread. The model follows the code:

- An unresolvable TZID in `parseICalTime` is an error that drops the event
  (main.go:227-230). It does not fall back to the local zone. The later re-expression
  step does ignore unresolvable names (main.go:180-183, 190-193).
- The sort is `sort.Slice`, which is not stable. Only "sorted by start" and "a
  permutation of the collected events" are claimed.
- Absent UID, SUMMARY, DESCRIPTION or LOCATION properties are dereferenced
  unconditionally. This is recorded under Findings. The model that the handler uses
  reads them as "".

A consequence of the code that the model proves: a bare date is read as midnight UTC,
while the window is local midnight. So a one-day all-day event (no DTEND) is also returned
for a local day other than its date whenever the local zone is not UTC: also for the day
before its date west of UTC, and also for the day after it east of UTC. Only with a local
zone of UTC is it returned for its own date and no other.

## Model

| member | source | states |
|---|---|---|
| ICal.GetProperty | main.go:123-128 | the property returned is the first one with that name; none is returned exactly when no property has that name |
| Civil.NextDayIsNextNumber | main.go:88 | the calendar's next day, rolling over month and year ends, has the next day number |
| Civil.AddDaysCountsDays | main.go:88 | stepping k days through the calendar, forwards or backwards, moves the day number by exactly k, as AddDate's normalisation does |
| Civil.DaysFromCivilInjective | main.go:88 | distinct valid dates have distinct day numbers |
| Civil.CivilOfDayNumber | main.go:88 | the date of a date's day number is that date: dates and day numbers are in bijection |
| GoTime.Reading | main.go:88-89 | Year(), Month() and Day() with the clock fields form a valid date and time of day that add up to the zone's wall clock |
| GoTime.ReadingUnique | main.go:88-89 | any valid date and time of day that add up to the wall clock are the reading |
| GoTime.ReadingOfTimeAt | main.go:89 | `time.Date(y, m, d, h, mi, s, 0, loc)` is an instant at which a clock in loc shows exactly that date and time |
| GoTime.TimeAtReading | main.go:89 | every time is the `time.Date` of its own reading in its own zone |
| GoTime.ParseDate | main.go:146 | `time.Parse("20060102", v)` gives a time in UTC |
| GoTime.ParseDateReadsBack | main.go:146 | whatever `time.Parse("20060102", v)` accepts reads as midnight, and its date written in the layout is v |
| GoTime.ParseDateOfFormat | main.go:146 | every date of years 0-9999, written in layout `20060102`, parses to its midnight UTC |
| GoTime.ParseUtc | main.go:216-219 | `time.Parse("20060102T150405Z", v)` gives a time in UTC |
| GoTime.ParseUtcReadsBack | main.go:216-219 | whatever it accepts is its result written in UTC in the layout, followed by Z |
| GoTime.ParseUtcOfFormat | main.go:216-219 | every UTC time of years 0-9999, written in the layout with Z, parses back to itself |
| GoTime.ParseInLocation | main.go:234 | `time.ParseInLocation("20060102T150405", v, loc)` gives a time in loc |
| GoTime.ParseInLocationReadsBack | main.go:234 | whatever it accepts is its result written as a clock in loc shows it |
| GoTime.ParseInLocationOfFormat | main.go:234 | every time of years 0-9999, written in its own zone, parses back to itself in that zone |
| Extractor.ParseICalTime | main.go:215-235 | a value with a trailing Z is read in UTC whatever its TZID says; any other is read in the zone the first TZID entry names, or in the local zone when there is none; an unresolvable name is that zone's error; a value that does not fit the layout is BadTimestamp |
| Extractor.ParseICalTimeReadsBack | main.go:215-235 | whatever parseICalTime accepts is its result written in UTC with Z, or in the selected zone without it |
| Extractor.ZuluValueIgnoresTzid | main.go:217-220 | a UTC time written with Z parses to itself whatever TZID the property carries, even one that does not resolve |
| Extractor.ZonedValueParses | main.go:222-234 | a time written in the zone its property selects parses to itself |
| Extractor.ZoneOfUnsuffixedValue | main.go:222-232 | for a value without Z: TZID absent or an empty list means the local zone; a first entry that resolves means its zone; an unresolvable first entry is an UnknownTimeZone error, never the local zone |
| Extractor.ParseAllDayDate | main.go:146-149 | an all-day date parses to a time in UTC, or fails with BadTimestamp naming the value |
| Extractor.ParseAllDayDateReadsBack | main.go:146-149 | an accepted all-day date is midnight UTC of the date written in the value |
| Extractor.ParseSpan | main.go:141-175 | allDay is exactly VALUE=DATE; dates go through the date layout and timed values through parseICalTime; with no DTEND the end is the start moved 86400 s later, in the start's zone (all-day), or the start itself, zone included (timed); it fails exactly when the start or a present end fails, with the first failure's error |
| Extractor.InTzid | main.go:178-185 | the re-expression never changes the instant; when the first TZID entry resolves, the result is in that zone, and otherwise the zone changes only to one the first entry resolves to |
| Extractor.Reexpress | main.go:177-196 | re-expressing start and end keeps both instants and the all-day flag |
| Extractor.ParseEvent | main.go:121-212 | no DTSTART is MissingDtStart; a span error is returned as is; otherwise an event is returned iff end > targetStart and start < targetEnd on the parsed instants, carrying those instants, the all-day flag and the text properties verbatim ("" when absent); start and end are shown in the zone their own property's TZID re-expresses them in (DTEND's only when present) |
| Extractor.MalformedStartIsError | main.go:141-164 | a DTSTART that does not fit its layout drops the event with that error, whatever DTEND holds |
| Extractor.DereferenceText | main.go:200-204 | as written: for an in-window event the first absent property among UID, SUMMARY, DESCRIPTION, LOCATION is a nil dereference; with all four present the result is unchanged |
| Extractor.ParseEventAsWritten | main.go:121-212 | as written, parseEvent crashes exactly when ParseEvent would return an event and a text property is absent; otherwise it agrees with ParseEvent |
| Extractor.DtStartOnlyEventDereferencesNil | main.go:200-204 | an event with only a UTC DTSTART inside the window crashes on UID as written, and ParseEvent returns it with empty text and end == start |
| Extractor.OverlapIsSharedInstant | main.go:199 | for an event of positive length, the window test holds iff the event and the window share an instant |
| Extractor.AllDayWithoutEnd | main.go:142-159 | an all-day date with no DTEND spans midnight UTC of that date to midnight UTC of the next date, is flagged all-day, and is returned iff that span overlaps the window |
| Extractor.TimedWithoutEnd | main.go:171-174 | a timed event with no DTEND has end == start and is returned iff targetStart < start < targetEnd, so one starting exactly at targetStart is left out |
| Extractor.AllDaySpillsIntoPreviousLocalDay | main.go:146-158 | west of UTC an all-day event without DTEND is also returned for the local day before its date |
| Extractor.AllDaySpillsIntoNextLocalDay | main.go:146-158 | east of UTC it is also returned for the local day after its date |
| Extractor.AllDayInUtcMatchesOnlyItsDate | main.go:146-158 | with a local zone of UTC it is returned for the window of its own date and of no other |
| Handler.TargetDate | main.go:88 | now.AddDate(0, 0, k) falls on the local date whose day number is today's plus k |
| Handler.DayWindow | main.go:87-90 | the window is in the local zone, exactly 86400 s long, and starts at local midnight of the target date |
| Handler.DayWindowHoldsShiftedNow | main.go:87-90 | the window for offset k holds the instant k days after now |
| Handler.DayWindowsAdjoin | main.go:87-90 | the window for k ends where the window for k + 1 starts |
| Handler.DayBeforeFirstOfMonth | main.go:88 | offset -1 on the first of a month targets the last day of the previous month, or 31 December of the previous year |
| Handler.CollectedAppend | main.go:94-104 | collecting two runs of components gives their two lists in order |
| Handler.CollectedMembers | main.go:94-104 | an event is collected iff some VEVENT of the calendar yields it without error |
| Handler.SkippedComponent | main.go:96-99 | a non-VEVENT, a rejected VEVENT or an out-of-window VEVENT adds nothing |
| Handler.CollectedInWindow | main.go:100-101 | every collected event passes the window test and carries its component's text verbatim |
| Handler.CollectEvents | main.go:93-104 | the loop builds exactly the collected list |
| Handler.SortByStart | main.go:107-109 | the array ends sorted by start and is a permutation of what it held |
| Handler.InsertNext | main.go:107-109 | one insertion step extends the sorted prefix by one, permutes the array and leaves every element after position i where it was |
| Handler.CalJson | main.go:86-109 | the handler's list is sorted by start and is a permutation of the events collected for the requested day's window |

## Left out

- HTTP handling, query parsing, `url.QueryUnescape`, `http.Get`, reading the body and `main` (main.go:29-84, 237-241): I/O plumbing.
- `ics.ParseCalendar` and the golang-ical types: a foreign library. Its output is an abstract sequence of components whose properties carry a value and a parameter map.
- JSON encoding of the result (main.go:111-117): a library serialiser. Encoding a nil slice gives `null`, not `[]`, for a day without events; this is not modelled.
- `time.Now()` is the parameter `now`, in whole seconds. The sub-second part cannot change the window.
- The IANA zone database and daylight-saving rules inside `time.LoadLocation` and `time.ParseInLocation`. The model uses a name-to-offset table and a fixed local offset. Go also rejects some names (`..` components, a leading slash) before the lookup; in the model whatever the table holds decides. Across a DST change 24 h is not one local day; the model cannot show that.
- GoTime.ParseUtc and GoTime.ParseInLocation reject a fractional second after the seconds field, which Go's parser accepts.
- GoTime.Format and GoTime.FormatDate cover years 0 to 9999 only, the years a four-digit field can hold. They are used only to state the round trips.
- Handler.TargetDate and Handler.DayWindow use unbounded integers: Go's 64-bit time arithmetic in `now.AddDate` and `time.Date` overflows for a `day` offset beyond about 1.07e14 (2^63 seconds in days) and then targets an unrelated day; the model gives the exact date instead.
- Handler.SortByStart is an insertion sort. `sort.Slice` may order events with equal starts differently, so only sortedness and the permutation are stated.
- Nanoseconds and the monotonic clock reading of `time.Time` are not modelled. All layouts here have whole seconds.
- RRULE expansion and the DURATION property: the source does not implement them.

## Findings

| source | as written | input that shows it | evidently intended | confidence | as-written member | corrected member |
|---|---|---|---|---|---|---|
| main.go:200-204 | the event record reads `.Value` of the UID, SUMMARY, DESCRIPTION and LOCATION properties without checking them for nil | a VEVENT whose only property is `DTSTART:20240301T090000Z`, requested for the UTC day 2024-03-01 | an absent text property reads as the empty string and the event is returned | not executed | Extractor.ParseEventAsWritten | Extractor.ParseEvent |
