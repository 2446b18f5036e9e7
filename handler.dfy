/** The part of caljsonHandler in main.go that decides what is returned: the window of the
    requested local day, the events collected from the calendar's components for it, and
    their order. */
module Handler {
  import opened Wrappers
  import opened Civil
  import opened GoTime
  import opened ICal
  import opened Extractor

  /** The span [start, end) of one requested day. */
  datatype Window = Window(start: Time, end: Time)

  /** The local date a clock shows at instant now. */
  function Today(now: int, env: TimeEnv): Date {
    Reading(Time(now, env.Local())).0
  }

  /** The year, month and day of now.AddDate(0, 0, dayOffset) (main.go:88): the local date
      dayOffset days after today's. */
  function TargetDate(now: int, env: TimeEnv, dayOffset: int): (d: Date)
    ensures ValidDate(d)
    ensures DaysFromCivil(d) == DaysFromCivil(Today(now, env)) + dayOffset
  {
    AddDaysCountsDays(Today(now, env), dayOffset);
    AddDays(Today(now, env), dayOffset)
  }

  /** targetStart and targetEnd (main.go:87-90): local midnight of the target date and the
      instant 24 hours later, both in the local zone. */
  function DayWindow(now: int, env: TimeEnv, dayOffset: int): (w: Window)
    ensures w.start.loc == env.Local() && w.end.loc == env.Local()
    ensures w.end.instant == w.start.instant + SecondsPerDay
    ensures Reading(w.start) == (TargetDate(now, env, dayOffset), Midnight)
  {
    var start := TimeAt(TargetDate(now, env, dayOffset), Midnight, env.Local());
    ReadingOfTimeAt(TargetDate(now, env, dayOffset), Midnight, env.Local());
    Window(start, start.Add(SecondsPerDay))
  }

  /** The window of day offset k holds the instant exactly k days after now, and for
      k == 0 it holds now itself. */
  lemma DayWindowHoldsShiftedNow(now: int, env: TimeEnv, dayOffset: int)
    ensures var w := DayWindow(now, env, dayOffset);
            w.start.instant <= now + dayOffset * SecondsPerDay < w.end.instant
  {
    var w := DayWindow(now, env, dayOffset);
    var c := Reading(Time(now, env.Local())).1;
    var n := DaysFromCivil(Today(now, env));
    ClockSplit(c);
    assert now + env.localOffset == n * SecondsPerDay + SecondsOfDay(c);
    MidnightAt(TargetDate(now, env, dayOffset), env.Local());
    assert w.start.instant == (n + dayOffset) * SecondsPerDay - env.localOffset;
    DayStartShift(n, dayOffset);
  }

  /** Consecutive offsets give back-to-back windows: the day after ends where the next
      starts. */
  lemma DayWindowsAdjoin(now: int, env: TimeEnv, dayOffset: int)
    ensures DayWindow(now, env, dayOffset).end == DayWindow(now, env, dayOffset + 1).start
  {
    var a := TargetDate(now, env, dayOffset);
    var b := TargetDate(now, env, dayOffset + 1);
    var n := DaysFromCivil(a);
    assert DaysFromCivil(b) == n + 1;
    MidnightAt(a, env.Local());
    MidnightAt(b, env.Local());
    DayStartShift(n, 1);
    assert DayWindow(now, env, dayOffset).start.instant == n * SecondsPerDay - env.localOffset;
    assert DayWindow(now, env, dayOffset + 1).start.instant == (n + 1) * SecondsPerDay - env.localOffset;
  }

  /** AddDate normalises past the start of a month: asked for the day before the first of
      a month, the handler looks at the last day of the month before, and of the year
      before on the first of January. */
  lemma DayBeforeFirstOfMonth(now: int, env: TimeEnv)
    requires Today(now, env).day == 1
    ensures var t := Today(now, env);
            TargetDate(now, env, -1)
              == if t.month > 1 then Date(t.year, t.month - 1, DaysInMonth(t.year, t.month - 1))
                 else Date(t.year - 1, 12, 31)
  {
    var t := Today(now, env);
    assert AddDays(t, -1) == AddDays(PrevDay(t), 0);
  }

  /** What one component adds to the list (main.go:95-103): the event parseEvent returns for
      a VEVENT, nothing for a VEVENT it rejects or leaves out, nothing for any other kind. */
  function Contribution(c: Component, env: TimeEnv, w: Window): (s: seq<Event>)
    ensures |s| <= 1
    ensures |s| == 1 <==> c.VEvent? && ParseEvent(c.properties, env, w.start, w.end).Success?
                          && ParseEvent(c.properties, env, w.start, w.end).value.Some?
    ensures |s| == 1 ==> s[0] == ParseEvent(c.properties, env, w.start, w.end).value.value
  {
    match c
    case OtherComponent(_) => []
    case VEvent(props) =>
      match ParseEvent(props, env, w.start, w.end)
      case Success(Some(e)) => [e]
      case _ => []
  }

  /** The list the loop builds from the components, in their order. */
  function Collected(components: seq<Component>, env: TimeEnv, w: Window): (events: seq<Event>)
    ensures |events| <= |components|
    decreases |components|
  {
    if components == [] then []
    else Collected(components[..|components| - 1], env, w) + Contribution(components[|components| - 1], env, w)
  }

  /** Collecting a calendar in two parts gives the two lists one after the other: the
      order of the components is the order of the events. */
  lemma {:induction false} CollectedAppend(a: seq<Component>, b: seq<Component>, env: TimeEnv, w: Window)
    ensures Collected(a + b, env, w) == Collected(a, env, w) + Collected(b, env, w)
    decreases |b|
  {
    if b == [] {
      assert a + b == a;
    } else {
      var b' := b[..|b| - 1];
      assert (a + b)[..|a + b| - 1] == a + b';
      assert (a + b)[|a + b| - 1] == b[|b| - 1];
      CollectedAppend(a, b', env, w);
    }
  }

  /** An event is in the list exactly when some VEVENT of the calendar yields it. */
  lemma {:induction false} CollectedMembers(components: seq<Component>, env: TimeEnv, w: Window, e: Event)
    ensures e in Collected(components, env, w) <==>
              exists i :: 0 <= i < |components| && components[i].VEvent?
                          && ParseEvent(components[i].properties, env, w.start, w.end) == Success(Some(e))
    decreases |components|
  {
    if components != [] {
      var init := components[..|components| - 1];
      var last := components[|components| - 1];
      CollectedMembers(init, env, w, e);
      if e in Collected(components, env, w) && e !in Collected(init, env, w) {
        assert last.VEvent? && ParseEvent(last.properties, env, w.start, w.end) == Success(Some(e));
      }
      if exists i :: 0 <= i < |components| && components[i].VEvent?
                     && ParseEvent(components[i].properties, env, w.start, w.end) == Success(Some(e)) {
        var i :| 0 <= i < |components| && components[i].VEvent?
                 && ParseEvent(components[i].properties, env, w.start, w.end) == Success(Some(e));
        if i < |components| - 1 {
          assert init[i] == components[i];
        }
      }
    }
  }

  /** A component that is not a VEVENT, or a VEVENT that parseEvent rejects or leaves out,
      adds nothing: the loop moves on to the next component. */
  lemma SkippedComponent(components: seq<Component>, c: Component, env: TimeEnv, w: Window)
    requires c.OtherComponent? || ParseEvent(c.properties, env, w.start, w.end).Failure?
             || ParseEvent(c.properties, env, w.start, w.end) == Success(None)
    ensures Collected(components + [c], env, w) == Collected(components, env, w)
  {
    assert (components + [c])[..|components|] == components;
  }

  /** Every collected event passes the window test and keeps its text fields verbatim. */
  lemma CollectedInWindow(components: seq<Component>, env: TimeEnv, w: Window, e: Event)
    requires e in Collected(components, env, w)
    ensures Overlaps(e.start.instant, e.end.instant, w.start.instant, w.end.instant)
    ensures exists i :: 0 <= i < |components| && components[i].VEvent?
                        && e.uid == TextOf(components[i].properties, Uid)
                        && e.summary == TextOf(components[i].properties, Summary)
                        && e.description == TextOf(components[i].properties, Description)
                        && e.location == TextOf(components[i].properties, LocationName)
  {
    CollectedMembers(components, env, w, e);
    var i :| 0 <= i < |components| && components[i].VEvent?
             && ParseEvent(components[i].properties, env, w.start, w.end) == Success(Some(e));
  }

  /** The collection loop of main.go:93-104. */
  method CollectEvents(components: seq<Component>, env: TimeEnv, w: Window) returns (events: seq<Event>)
    ensures events == Collected(components, env, w)
  {
    events := [];
    var i := 0;
    while i < |components|
      invariant 0 <= i <= |components|
      invariant events == Collected(components[..i], env, w)
    {
      var c := components[i];
      assert components[..i + 1][..i] == components[..i];
      assert Collected(components[..i + 1], env, w) == Collected(components[..i], env, w) + Contribution(c, env, w);
      if c.VEvent? {
        var parsed := ParseEvent(c.properties, env, w.start, w.end);
        if parsed.Success? && parsed.value.Some? {
          assert Contribution(c, env, w) == [parsed.value.value];
          events := events + [parsed.value.value];
        } else {
          assert Contribution(c, env, w) == [];
        }
      } else {
        assert Contribution(c, env, w) == [];
      }
      i := i + 1;
    }
    assert components[..|components|] == components;
  }

  /** Ordered by start instant, as sort.Slice with Start.Before leaves the list. */
  predicate SortedByStart(s: seq<Event>) {
    forall i, j :: 0 <= i < j < |s| ==> s[i].start.instant <= s[j].start.instant
  }

  /** sort.Slice by start (main.go:107-109), as an insertion sort in place. */
  method SortByStart(a: array<Event>)
    modifies a
    ensures SortedByStart(a[..])
    ensures multiset(a[..]) == multiset(old(a[..]))
  {
    var i := 0;
    while i < a.Length
      invariant 0 <= i <= a.Length
      invariant SortedByStart(a[..i])
      invariant multiset(a[..]) == multiset(old(a[..]))
    {
      InsertNext(a, i);
      i := i + 1;
    }
    assert a[..a.Length] == a[..];
  }

  /** One step of the insertion sort: moves a[i] down into the sorted prefix a[..i]. */
  method InsertNext(a: array<Event>, i: int)
    requires 0 <= i < a.Length
    requires SortedByStart(a[..i])
    modifies a
    ensures SortedByStart(a[..i + 1])
    ensures multiset(a[..]) == multiset(old(a[..]))
    ensures forall m :: i < m < a.Length ==> a[m] == old(a[m])
  {
    var j := i;
    while j > 0 && a[j - 1].start.instant > a[j].start.instant
      invariant 0 <= j <= i
      invariant multiset(a[..]) == multiset(old(a[..]))
      invariant forall m :: i < m < a.Length ==> a[m] == old(a[m])
      invariant forall k, l :: 0 <= k < l <= i && k != j && l != j ==> a[k].start.instant <= a[l].start.instant
      invariant forall l :: j < l <= i ==> a[j].start.instant <= a[l].start.instant
    {
      SwapDown(a, j);
      j := j - 1;
    }
    forall k, l | 0 <= k < l <= i
      ensures a[k].start.instant <= a[l].start.instant
    {
      if l == j && k < j - 1 {
        assert a[k].start.instant <= a[j - 1].start.instant;
      }
    }
  }

  /** Exchanges a[j - 1] and a[j]. */
  method SwapDown(a: array<Event>, j: int)
    requires 0 < j < a.Length
    modifies a
    ensures a[j - 1] == old(a[j]) && a[j] == old(a[j - 1])
    ensures forall m :: 0 <= m < a.Length && m != j - 1 && m != j ==> a[m] == old(a[m])
    ensures multiset(a[..]) == multiset(old(a[..]))
  {
    a[j - 1], a[j] := a[j], a[j - 1];
  }

  /** The list caljsonHandler encodes: the events collected for the requested day, ordered
      by start, and a rearrangement of that collection. */
  method CalJson(components: seq<Component>, env: TimeEnv, now: int, dayOffset: int) returns (events: seq<Event>)
    ensures SortedByStart(events)
    ensures multiset(events) == multiset(Collected(components, env, DayWindow(now, env, dayOffset)))
  {
    var w := DayWindow(now, env, dayOffset);
    var collected := CollectEvents(components, env, w);
    var a := new Event[|collected|](i requires 0 <= i < |collected| => collected[i]);
    assert a[..] == collected;
    SortByStart(a);
    events := a[..];
  }
}
