/** `generateICSFile` (lib/ics-generator.ts): validating an event record and
    building the event configuration handed to the calendar library, with the
    start composed from the date and time strings and the end fixed one hour
    later. Rendering the configuration as iCalendar text is the library's
    work and is not part of this model. */
module IcsGenerator {
  import opened Wrappers
  import opened JsString
  import opened JsNumber
  import opened JsDate

  /** The `EventData` record; `None` is `null`. */
  datatype EventData = EventData(
    title: Option<string>,
    startDate: Option<string>,
    startTime: Option<string>,
    location: Option<string>,
    description: Option<string>)

  /** The configuration of the one event put in the calendar; `None` is
      `undefined`, which leaves the property out of the event. */
  datatype EventConfig = EventConfig(
    summary: string,
    start: Instant,
    end: Instant,
    location: Option<string>,
    description: Option<string>)

  /** The two errors the generator throws. */
  datatype IcsError =
    | MissingTitleOrDate  // "Se requiere al menos título y fecha para crear un evento"
    | InvalidStartDate    // "Fecha de inicio no válida"

  /** Element `k` of `parts.map(Number)` after array destructuring: `NaN`
      when the array is too short to have one (`undefined`). */
  function Component(parts: seq<string>, k: nat): (r: Option<int>)
    ensures r.Some? <==> k < |parts| && AllDigits(Trim(parts[k]))
    ensures r.Some? ==> r.value >= 0
  {
    if k < |parts| then ToNumber(parts[k]) else None
  }

  /** `month - 1`, staying `NaN` for `NaN`. */
  function MonthIndex(month: Option<int>): (r: Option<int>)
    ensures r.Some? <==> month.Some?
    ensures r.Some? ==> r.value + 1 == month.value
  {
    match month
    case None => None
    case Some(m) => Some(m - 1)
  }

  /** Year, month index (`month - 1`) and day of `startDate` split on `-`;
      further components are ignored. */
  function DateFields(startDate: string): (r: (Option<int>, Option<int>, Option<int>))
    ensures r.0 == ToNumber(Split(startDate, '-')[0])
    ensures r.1.Some? <==> 1 < |Split(startDate, '-')| && ToNumber(Split(startDate, '-')[1]).Some?
    ensures r.1.Some? ==> 1 < |Split(startDate, '-')| && ToNumber(Split(startDate, '-')[1]) == Some(r.1.value + 1)
    ensures r.2.Some? <==> 2 < |Split(startDate, '-')| && ToNumber(Split(startDate, '-')[2]).Some?
    ensures r.2.Some? ==> 2 < |Split(startDate, '-')| && ToNumber(Split(startDate, '-')[2]) == r.2
    ensures '-' !in startDate ==> r.1.None? && r.2.None?
  {
    var d := Split(startDate, '-');
    (Component(d, 0), MonthIndex(Component(d, 1)), Component(d, 2))
  }

  /** Hour and minute of `startTime` split on `:`; further components are
      ignored. */
  function TimeFields(startTime: string): (r: (Option<int>, Option<int>))
    ensures r.0 == ToNumber(Split(startTime, ':')[0])
    ensures r.1.Some? <==> 1 < |Split(startTime, ':')| && ToNumber(Split(startTime, ':')[1]).Some?
    ensures r.1.Some? ==> 1 < |Split(startTime, ':')| && ToNumber(Split(startTime, ':')[1]) == r.1
    ensures ':' !in startTime ==> r.1.None?
  {
    var t := Split(startTime, ':');
    (Component(t, 0), Component(t, 1))
  }

  /** The start `Date`: the date's fields with the time's hour and minute
      when `startTime` is truthy, midnight otherwise. */
  function StartInstant(startDate: string, startTime: Option<string>): (r: Instant)
    ensures r.At? ==> DateFields(startDate).0.Some? && DateFields(startDate).1.Some? && DateFields(startDate).2.Some?
    ensures r.At? ==> -MaxMinutes <= r.minutes <= MaxMinutes
    ensures '-' !in startDate ==> r == Invalid
    ensures Truthy(startTime) && ':' !in startTime.value ==> r == Invalid
    ensures r.At? && Truthy(startTime) ==> TimeFields(startTime.value).0.Some? && TimeFields(startTime.value).1.Some?
  {
    var (year, month, day) := DateFields(startDate);
    if Truthy(startTime) then
      var (hour, minute) := TimeFields(startTime.value);
      NewDate(year, month, day, hour, minute)
    else
      NewDate(year, month, day, Some(0), Some(0))
  }

  /** `s || undefined`: an empty or null text leaves the property out. */
  function OptionalText(s: Option<string>): (r: Option<string>)
    ensures r.Some? <==> Truthy(s)
    ensures r.Some? ==> r.value == s.value
  {
    if Truthy(s) then s else None
  }

  /** `generateICSFile` up to the event configuration. */
  function GenerateEvent(e: EventData): (r: Result<EventConfig, IcsError>)
    ensures r.Failure? <==> !Truthy(e.title) || !Truthy(e.startDate)
    ensures r.Failure? ==> r.error == MissingTitleOrDate
    ensures r.Success? ==> r.value.summary == e.title.value
    ensures r.Success? ==> r.value.start == StartInstant(e.startDate.value, e.startTime)
    ensures r.Success? && r.value.end.At? ==> r.value.start.At? && r.value.end.minutes == r.value.start.minutes + 60
    ensures r.Success? && r.value.start.At? && r.value.start.minutes + 60 <= MaxMinutes ==> r.value.end.At?
    ensures r.Success? && r.value.start.At? && r.value.start.minutes + 60 > MaxMinutes ==> r.value.end == Invalid
    ensures r.Success? && r.value.start == Invalid ==> r.value.end == Invalid
    ensures r.Success? ==> (r.value.location.Some? <==> Truthy(e.location))
    ensures r.Success? && r.value.location.Some? ==> r.value.location.value == e.location.value
    ensures r.Success? ==> (r.value.description.Some? <==> Truthy(e.description))
    ensures r.Success? && r.value.description.Some? ==> r.value.description.value == e.description.value
  {
    if !Truthy(e.title) || !Truthy(e.startDate) then
      Failure(MissingTitleOrDate)
    else if !Truthy(e.startDate) then
      Failure(InvalidStartDate)
    else
      var start := StartInstant(e.startDate.value, e.startTime);
      Success(EventConfig(
        summary := e.title.value,
        start := start,
        end := AddMinutes(start, 60),
        location := OptionalText(e.location),
        description := OptionalText(e.description)))
  }

  /** A date written `YYYY-MM-DD`, as the extraction prompt asks for. */
  function FormatDate(year: nat, month: nat, day: nat): string {
    Join([Padded(year, 4), Padded(month, 2), Padded(day, 2)], '-')
  }

  /** A time written `HH:mm`, as the extraction prompt asks for. */
  function FormatTime(hour: nat, minute: nat): string {
    Join([Padded(hour, 2), Padded(minute, 2)], ':')
  }

  /** A rendering of digits holds no separator. */
  lemma DigitsHaveNo(s: string, sep: char)
    requires AllDigits(s) && !IsDigit(sep)
    ensures sep !in s
  {
  }

  /** The pieces of a formatted date and time are its fields. */
  lemma SplitFormatted(year: nat, month: nat, day: nat, hour: nat, minute: nat)
    ensures Split(FormatDate(year, month, day), '-') == [Padded(year, 4), Padded(month, 2), Padded(day, 2)]
    ensures Split(FormatTime(hour, minute), ':') == [Padded(hour, 2), Padded(minute, 2)]
  {
    var dp := [Padded(year, 4), Padded(month, 2), Padded(day, 2)];
    var tp := [Padded(hour, 2), Padded(minute, 2)];
    forall k | 0 <= k < |dp|
      ensures '-' !in dp[k]
    {
      DigitsHaveNo(dp[k], '-');
    }
    forall k | 0 <= k < |tp|
      ensures ':' !in tp[k]
    {
      DigitsHaveNo(tp[k], ':');
    }
    SplitJoin(dp, '-');
    SplitJoin(tp, ':');
  }

  /** A date and time in the prompt's formats give the start at that wall
      clock reading, with seconds zero and the written month stored as
      `month - 1`; `NaN` only beyond TimeClip's range. */
  lemma StartOfFormatted(year: nat, month: nat, day: nat, hour: nat, minute: nat)
    requires ValidWallClock(WallClock(year, month, day, hour, minute)) && year >= 100
    ensures StartInstant(FormatDate(year, month, day), Some(FormatTime(hour, minute)))
         == TimeClip(Encode(WallClock(year, month, day, hour, minute)))
  {
    StartOfFormattedFields(year, month, day, hour, minute);
    NewDateOfReading(year, month, day, hour, minute);
  }

  /** Formatted text hands its numbers to the `Date` constructor unchanged,
      apart from the month index. */
  lemma StartOfFormattedFields(year: nat, month: nat, day: nat, hour: nat, minute: nat)
    ensures StartInstant(FormatDate(year, month, day), Some(FormatTime(hour, minute)))
         == NewDate(Some(year), Some(month - 1), Some(day), Some(hour), Some(minute))
  {
    DateFieldsOfFormatted(year, month, day);
    TimeFieldsOfFormatted(hour, minute);
  }

  /** The fields of a formatted date are its year, month index and day. */
  lemma DateFieldsOfFormatted(year: nat, month: nat, day: nat)
    ensures DateFields(FormatDate(year, month, day)) == (Some(year), Some(month - 1), Some(day))
  {
    SplitFormatted(year, month, day, 0, 0);
    ToNumberPadded(year, 4);
    ToNumberPadded(month, 2);
    ToNumberPadded(day, 2);
    DateFieldsOfPieces(FormatDate(year, month, day), Padded(year, 4), Padded(month, 2), Padded(day, 2), year, month, day);
  }

  /** The date fields of three numeric pieces. */
  lemma DateFieldsOfPieces(date: string, ys: string, ms: string, ds: string, year: int, month: int, day: int)
    requires Split(date, '-') == [ys, ms, ds]
    requires ToNumber(ys) == Some(year) && ToNumber(ms) == Some(month) && ToNumber(ds) == Some(day)
    ensures DateFields(date) == (Some(year), Some(month - 1), Some(day))
  {
  }

  /** The fields of a formatted time are its hour and minute, and the
      formatted time is truthy. */
  lemma TimeFieldsOfFormatted(hour: nat, minute: nat)
    ensures TimeFields(FormatTime(hour, minute)) == (Some(hour), Some(minute))
    ensures FormatTime(hour, minute) != []
  {
    SplitFormatted(0, 0, 0, hour, minute);
    JoinHasSeparator([Padded(hour, 2), Padded(minute, 2)], ':');
    ToNumberPadded(hour, 2);
    ToNumberPadded(minute, 2);
    TimeFieldsOfPieces(FormatTime(hour, minute), Padded(hour, 2), Padded(minute, 2), hour, minute);
  }

  /** The time fields of two numeric pieces. */
  lemma TimeFieldsOfPieces(time: string, hs: string, ms: string, hour: int, minute: int)
    requires Split(time, ':') == [hs, ms]
    requires ToNumber(hs) == Some(hour) && ToNumber(ms) == Some(minute)
    ensures TimeFields(time) == (Some(hour), Some(minute))
  {
  }

  /** Without a time (null or empty) the start is midnight on the date: the
      same instant as the time `00:00`. */
  lemma MidnightWithoutTime(startDate: string, startTime: Option<string>)
    requires !Truthy(startTime)
    ensures StartInstant(startDate, startTime) == StartInstant(startDate, Some(FormatTime(0, 0)))
  {
    TimeFieldsOfFormatted(0, 0);
  }

  /** Date components after the third and time components after the second
      are ignored: `"09:30:15"` starts at 09:30. */
  lemma ExtraComponentsIgnored(dateParts: seq<string>, timeParts: seq<string>)
    requires |dateParts| >= 3 && |timeParts| >= 2
    requires forall k :: 0 <= k < |dateParts| ==> '-' !in dateParts[k]
    requires forall k :: 0 <= k < |timeParts| ==> ':' !in timeParts[k]
    ensures StartInstant(Join(dateParts, '-'), Some(Join(timeParts, ':')))
         == StartInstant(Join(dateParts[..3], '-'), Some(Join(timeParts[..2], ':')))
  {
    DateFieldsOfPrefix(dateParts);
    TimeFieldsOfPrefix(timeParts);
    JoinHasSeparator(timeParts, ':');
    JoinHasSeparator(timeParts[..2], ':');
    StartOfSameFields(Join(dateParts, '-'), Join(dateParts[..3], '-'), Join(timeParts, ':'), Join(timeParts[..2], ':'));
  }

  /** The date fields read only the first three pieces. */
  lemma DateFieldsOfPrefix(parts: seq<string>)
    requires |parts| >= 3
    requires forall k :: 0 <= k < |parts| ==> '-' !in parts[k]
    ensures DateFields(Join(parts, '-')) == DateFields(Join(parts[..3], '-'))
  {
    SplitJoin(parts, '-');
    SplitJoin(parts[..3], '-');
    ComponentsOfPrefix(parts, 3);
  }

  /** The time fields read only the first two pieces. */
  lemma TimeFieldsOfPrefix(parts: seq<string>)
    requires |parts| >= 2
    requires forall k :: 0 <= k < |parts| ==> ':' !in parts[k]
    ensures TimeFields(Join(parts, ':')) == TimeFields(Join(parts[..2], ':'))
  {
    SplitJoin(parts, ':');
    SplitJoin(parts[..2], ':');
    ComponentsOfPrefix(parts, 2);
  }

  /** The start of any date and time whose pieces are numerals, padded or
      not (`2025-3-5` at `9:05`), is the constructor applied to their
      values, with the month lowered by one. */
  lemma StartOfNumerals(date: string, time: string, y: int, m: int, d: int, h: int, mi: int)
    requires |Split(date, '-')| >= 3 && |Split(time, ':')| >= 2
    requires ToNumber(Split(date, '-')[0]) == Some(y)
    requires ToNumber(Split(date, '-')[1]) == Some(m)
    requires ToNumber(Split(date, '-')[2]) == Some(d)
    requires ToNumber(Split(time, ':')[0]) == Some(h)
    requires ToNumber(Split(time, ':')[1]) == Some(mi)
    ensures StartInstant(date, Some(time)) == NewDate(Some(y), Some(m - 1), Some(d), Some(h), Some(mi))
  {
    DateFieldsOfNumerals(date, y, m, d);
    TimeFieldsOfNumerals(time, h, mi);
    JoinSplit(time, ':');
    JoinHasSeparator(Split(time, ':'), ':');
  }

  /** Numeral date pieces give their values as the date fields. */
  lemma DateFieldsOfNumerals(date: string, y: int, m: int, d: int)
    requires |Split(date, '-')| >= 3
    requires ToNumber(Split(date, '-')[0]) == Some(y)
    requires ToNumber(Split(date, '-')[1]) == Some(m)
    requires ToNumber(Split(date, '-')[2]) == Some(d)
    ensures DateFields(date) == (Some(y), Some(m - 1), Some(d))
  {
  }

  /** Numeral time pieces give their values as the time fields. */
  lemma TimeFieldsOfNumerals(time: string, h: int, mi: int)
    requires |Split(time, ':')| >= 2
    requires ToNumber(Split(time, ':')[0]) == Some(h)
    requires ToNumber(Split(time, ':')[1]) == Some(mi)
    ensures TimeFields(time) == (Some(h), Some(mi))
  {
  }

  /** Texts with the same fields give the same start. */
  lemma StartOfSameFields(date1: string, date2: string, time1: string, time2: string)
    requires DateFields(date1) == DateFields(date2) && TimeFields(time1) == TimeFields(time2)
    requires time1 != [] && time2 != []
    ensures StartInstant(date1, Some(time1)) == StartInstant(date2, Some(time2))
  {
  }

  /** Destructuring reads the same components from a prefix that covers them. */
  lemma ComponentsOfPrefix(parts: seq<string>, n: nat)
    requires 2 <= n <= |parts|
    ensures forall k :: 0 <= k < n ==> Component(parts[..n], k) == Component(parts, k)
  {
  }

  /** A join of two or more pieces is not empty. */
  lemma JoinHasSeparator(parts: seq<string>, sep: char)
    requires |parts| >= 2
    ensures Join(parts, sep) != []
  {
  }

  /** The end is read on the wall clock as one hour after the start, carried
      across the day, month and year; no end is ever read from the record. */
  lemma EndIsNextHour(e: EventData, w: WallClock)
    requires ValidWallClock(w)
    requires GenerateEvent(e).Success? && GenerateEvent(e).value.start == At(Encode(w))
    ensures GenerateEvent(e).value.end == TimeClip(Encode(NextHour(w)))
    ensures forall v :: ValidWallClock(v) && GenerateEvent(e).value.end == At(Encode(v)) ==> v == NextHour(w)
  {
    NextHourEncode(w);
    forall v | ValidWallClock(v) && GenerateEvent(e).value.end == At(Encode(v))
      ensures v == NextHour(w)
    {
      EncodeInjective(v, NextHour(w));
    }
  }

  /** A titled event whose date and time are written in the prompt's
      formats starts at that wall clock reading and ends an hour later, and
      leaves out an absent location and description. */
  lemma GenerateOfFormatted(title: string, year: nat, month: nat, day: nat, hour: nat, minute: nat)
    requires title != [] && year >= 100
    requires ValidWallClock(WallClock(year, month, day, hour, minute))
    ensures var start := TimeClip(Encode(WallClock(year, month, day, hour, minute)));
            GenerateEvent(EventData(Some(title), Some(FormatDate(year, month, day)), Some(FormatTime(hour, minute)), None, None))
            == Success(EventConfig(title, start, AddMinutes(start, 60), None, None))
  {
    JoinHasSeparator([Padded(year, 4), Padded(month, 2), Padded(day, 2)], '-');
    StartOfFormatted(year, month, day, hour, minute);
  }

  /** An event at 23:30 on December 31 ends at 00:30 on January 1 of the
      next year. */
  lemma NewYearRollover()
    ensures GenerateEvent(EventData(Some("Cena"), Some(FormatDate(2025, 12, 31)), Some(FormatTime(23, 30)), None, None))
         == Success(EventConfig("Cena",
                                At(Encode(WallClock(2025, 12, 31, 23, 30))),
                                At(Encode(WallClock(2026, 1, 1, 0, 30))),
                                None, None))
  {
    var w := WallClock(2025, 12, 31, 23, 30);
    GenerateOfFormatted("Cena", 2025, 12, 31, 23, 30);
    NewYearsEveTimeValue();
    NextHourEncode(w);
    assert NextHour(w) == WallClock(2026, 1, 1, 0, 30);
  }

  lemma NewYearsEveTimeValue()
    ensures Encode(WallClock(2025, 12, 31, 23, 30)) == 29453730
  {
    assert DayFromYear(2025) == 20089;
  }
}
