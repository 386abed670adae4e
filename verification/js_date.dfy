/** The part of ECMAScript's `Date` the core uses: `new Date(y, m, d, h, mi)`
    on a local wall clock, `getTime()` and `new Date(ms)`. Local time is taken
    with a zero UTC offset and no daylight-saving shifts, and time values are
    counted in minutes, since every instant the core builds has zero seconds
    and milliseconds. Day numbering follows sections 21.4.1.3 to 21.4.1.31 of
    ECMA-262 (DayFromYear, InLeapYear, MakeDay, MakeDate, TimeClip). */
module JsDate {
  import opened Wrappers

  const MinutesPerDay := 1440

  /** TimeClip's bound of 8.64e15 ms, in minutes. */
  const MaxMinutes := 144_000_000_000

  /** Day number of January 1 of year `y`, day 0 being 1970-01-01. `/` is
      floor division here because every divisor is positive. */
  function DayFromYear(y: int): int {
    365 * (y - 1970) + (y - 1969) / 4 - (y - 1901) / 100 + (y - 1601) / 400
  }

  predicate InLeapYear(y: int) {
    y % 4 == 0 && (y % 100 != 0 || y % 400 == 0)
  }

  function DaysInYear(y: int): int {
    if InLeapYear(y) then 366 else 365
  }

  /** Length of month `m0` (0 = January) of year `y`. */
  function DaysInMonth(y: int, m0: int): int
    requires 0 <= m0 < 12
  {
    if m0 == 1 then (if InLeapYear(y) then 29 else 28)
    else if m0 == 3 || m0 == 5 || m0 == 8 || m0 == 10 then 30
    else 31
  }

  /** Days of year `y` before the first of month `m0`. */
  function MonthStart(y: int, m0: int): int
    requires 0 <= m0 < 12
  {
    var leap := if InLeapYear(y) then 1 else 0;
    match m0
    case 0 => 0
    case 1 => 31
    case 2 => 59 + leap
    case 3 => 90 + leap
    case 4 => 120 + leap
    case 5 => 151 + leap
    case 6 => 181 + leap
    case 7 => 212 + leap
    case 8 => 243 + leap
    case 9 => 273 + leap
    case 10 => 304 + leap
    case _ => 334 + leap
  }

  /** Day number of day `d` of month `m0` of year `y`; a day outside the
      month counts on from its first. */
  function DayNumber(y: int, m0: int, d: int): int
    requires 0 <= m0 < 12
  {
    DayFromYear(y) + MonthStart(y, m0) + d - 1
  }

  /** MakeDay(year, month, date): a month outside 0..11 carries into the
      year, and a day outside the month into the following days. */
  function MakeDay(y: int, m0: int, d: int): (r: int)
    ensures 0 <= m0 < 12 ==> r == DayNumber(y, m0, d)
    ensures 12 <= m0 < 24 ==> r == DayNumber(y + 1, m0 - 12, d)
    ensures -12 <= m0 < 0 ==> r == DayNumber(y - 1, m0 + 12, d)
  {
    var q, m := m0 / 12, m0 % 12;
    assert 0 <= m0 < 12 ==> q == 0 && m == m0;
    assert 12 <= m0 < 24 ==> q == 1 && m == m0 - 12;
    assert -12 <= m0 < 0 ==> q == -1 && m == m0 + 12;
    DayNumber(y + q, m, d)
  }

  /** A `Date`'s time value: minutes since 1970-01-01 00:00, or `Invalid`
      for a `Date` whose time value is `NaN` ("Invalid Date"). */
  datatype Instant = Invalid | At(minutes: int)

  /** TimeClip: a time value beyond 8.64e15 ms either way is `NaN`. */
  function TimeClip(t: int): (r: Instant)
    ensures r.At? <==> -MaxMinutes <= t <= MaxMinutes
    ensures r.At? ==> r.minutes == t
  {
    if -MaxMinutes <= t <= MaxMinutes then At(t) else Invalid
  }

  /** The Date constructor maps a year from 0 to 99 to 1900 + year. */
  function ConstructorYear(y: int): (r: int)
    ensures r != y <==> 0 <= y <= 99
    ensures r != y ==> 1900 <= r <= 1999 && r % 100 == y
  {
    if 0 <= y <= 99 then 1900 + y else y
  }

  /** `new Date(y, m0, d, h, mi)` in local time; `None` is a `NaN` argument. */
  function NewDate(y: Option<int>, m0: Option<int>, d: Option<int>, h: Option<int>, mi: Option<int>): (r: Instant)
    ensures r.At? ==> y.Some? && m0.Some? && d.Some? && h.Some? && mi.Some?
    ensures r.At? ==> -MaxMinutes <= r.minutes <= MaxMinutes
  {
    if y.None? || m0.None? || d.None? || h.None? || mi.None? then Invalid
    else TimeClip(MakeDay(ConstructorYear(y.value), m0.value, d.value) * MinutesPerDay + h.value * 60 + mi.value)
  }

  /** `new Date(t.getTime() + n * 60 * 1000)`. */
  function AddMinutes(t: Instant, n: int): (r: Instant)
    ensures r.At? <==> t.At? && -MaxMinutes <= t.minutes + n <= MaxMinutes
    ensures r.At? ==> r.minutes == t.minutes + n
  {
    match t
    case Invalid => Invalid
    case At(m) => TimeClip(m + n)
  }

  /** A calendar date and time of day on the local wall clock; `month` runs
      from 1 to 12, as it is written. */
  datatype WallClock = WallClock(year: int, month: int, day: int, hour: int, minute: int)

  predicate ValidWallClock(w: WallClock) {
    && 1 <= w.month <= 12
    && 1 <= w.day <= DaysInMonth(w.year, w.month - 1)
    && 0 <= w.hour < 24
    && 0 <= w.minute < 60
  }

  /** The time value of a wall-clock reading. */
  function Encode(w: WallClock): int
    requires 1 <= w.month <= 12
  {
    DayNumber(w.year, w.month - 1, w.day) * MinutesPerDay + w.hour * 60 + w.minute
  }

  /** The wall-clock reading one hour later, carrying into the day, the
      month and the year. */
  function NextHour(w: WallClock): WallClock
    requires ValidWallClock(w)
  {
    if w.hour < 23 then w.(hour := w.hour + 1)
    else if w.day < DaysInMonth(w.year, w.month - 1) then w.(day := w.day + 1, hour := 0)
    else if w.month < 12 then w.(month := w.month + 1, day := 1, hour := 0)
    else WallClock(w.year + 1, 1, 1, 0, w.minute)
  }

  /** Floor division is determined by the quotient-remainder equation. */
  lemma DivUnique(x: int, k: int, q: int, r: int)
    requires k > 0 && 0 <= r < k && x == k * q + r
    ensures x / k == q
  {
    var q' := x / k;
    if q' < q {
      MulAtLeast(k, q - q');
    } else if q < q' {
      MulAtLeast(k, q' - q);
    }
  }

  lemma MulAtLeast(k: int, n: int)
    requires k > 0 && n >= 1
    ensures k * n >= k
  {
  }

  /** Shifting by a multiple of the divisor keeps the remainder. */
  lemma ModShift(y: int, k: int, q: int)
    requires k > 0
    ensures (y - k * q) % k == y % k
  {
    var x := y - k * q;
    assert x == k * (y / k - q) + y % k;
    DivUnique(x, k, y / k - q, y % k);
  }

  /** One step of floor division by a positive divisor. */
  lemma FloorDivStep(a: int, k: int)
    requires k > 0
    ensures (a + 1) / k == a / k + (if (a + 1) % k == 0 then 1 else 0)
  {
    var q, r := a / k, a % k;
    if r == k - 1 {
      DivUnique(a + 1, k, q + 1, 0);
    } else {
      DivUnique(a + 1, k, q, r + 1);
    }
  }

  /** A year has as many days as DayFromYear advances over it. */
  lemma DayFromYearStep(y: int)
    ensures DayFromYear(y + 1) == DayFromYear(y) + DaysInYear(y)
  {
    FloorDivStep(y - 1969, 4);
    FloorDivStep(y - 1901, 100);
    FloorDivStep(y - 1601, 400);
    ModShift(y, 4, 492);
    ModShift(y, 100, 19);
    ModShift(y, 400, 4);
  }

  /** Later years start later, by at least 365 days a year. */
  lemma {:induction false} DayFromYearMonotone(y: int, y': int)
    requires y <= y'
    ensures DayFromYear(y) + 365 * (y' - y) <= DayFromYear(y')
    decreases y' - y
  {
    if y < y' {
      DayFromYearMonotone(y, y' - 1);
      DayFromYearStep(y' - 1);
    }
  }

  /** The first of the next month follows the last day of this one. */
  lemma MonthStartStep(y: int, m0: int)
    requires 0 <= m0 < 12
    ensures m0 < 11 ==> MonthStart(y, m0 + 1) == MonthStart(y, m0) + DaysInMonth(y, m0)
    ensures m0 == 11 ==> MonthStart(y, m0) + DaysInMonth(y, m0) == DaysInYear(y)
  {
  }

  /** Day `d` of month `m0` falls inside year `y`'s span of day numbers. */
  lemma DayNumberInYear(y: int, m0: int, d: int)
    requires 0 <= m0 < 12 && 1 <= d <= DaysInMonth(y, m0)
    ensures DayFromYear(y) <= DayNumber(y, m0, d) < DayFromYear(y) + DaysInYear(y)
  {
    MonthStartStep(y, m0);
    if m0 < 11 {
      MonthsOrdered(y, m0, 11);
    }
    MonthStartStep(y, 11);
  }

  /** Twelve months more is the same month of the next year. */
  lemma MakeDayYearCarry(y: int, m0: int, d: int)
    ensures MakeDay(y, m0 + 12, d) == MakeDay(y + 1, m0, d)
  {
    assert (m0 + 12) / 12 == m0 / 12 + 1 && (m0 + 12) % 12 == m0 % 12;
  }

  /** A two-digit year and its 1900s spelling build the same `Date`, and a
      year the rule has already mapped is mapped no further. */
  lemma NewDateTwoDigitYear(y: int, m0: Option<int>, d: Option<int>, h: Option<int>, mi: Option<int>)
    requires 0 <= y <= 99
    ensures NewDate(Some(y), m0, d, h, mi) == NewDate(Some(1900 + y), m0, d, h, mi)
    ensures ConstructorYear(ConstructorYear(y)) == ConstructorYear(y)
  {
  }

  /** For a month inside 0..11 nothing carries. */
  lemma MakeDayPlain(y: int, m0: int, d: int)
    requires 0 <= m0 < 12
    ensures MakeDay(y, m0, d) == DayNumber(y, m0, d)
  {
    assert m0 / 12 == 0 && m0 % 12 == m0;
  }

  /** The day after the last of a month before December is the first of the
      next month. */
  lemma DayNumberNextMonth(y: int, m0: int)
    requires 0 <= m0 < 11
    ensures DayNumber(y, m0, DaysInMonth(y, m0)) + 1 == DayNumber(y, m0 + 1, 1)
  {
    MonthStartStep(y, m0);
  }

  /** The day after December 31 is January 1 of the next year. */
  lemma DayNumberNextYear(y: int)
    ensures DayNumber(y, 11, 31) + 1 == DayNumber(y + 1, 0, 1)
  {
    MonthStartStep(y, 11);
    DayFromYearStep(y);
  }

  /** The end of the default one-hour window read on the wall clock: one hour
      after a valid reading is the carried reading `NextHour`. */
  lemma NextHourEncode(w: WallClock)
    requires ValidWallClock(w)
    ensures ValidWallClock(NextHour(w))
    ensures Encode(NextHour(w)) == Encode(w) + 60
  {
    var m0 := w.month - 1;
    if w.hour == 23 && w.day == DaysInMonth(w.year, m0) {
      if w.month < 12 {
        DayNumberNextMonth(w.year, m0);
      } else {
        DayNumberNextYear(w.year);
      }
    }
  }

  /** Distinct valid wall-clock readings have distinct time values, so a
      time value names at most one reading. */
  lemma EncodeInjective(a: WallClock, b: WallClock)
    requires ValidWallClock(a) && ValidWallClock(b)
    requires Encode(a) == Encode(b)
    ensures a == b
  {
    var da := DayNumber(a.year, a.month - 1, a.day);
    var db := DayNumber(b.year, b.month - 1, b.day);
    SplitDayAndTime(da, a.hour * 60 + a.minute, db, b.hour * 60 + b.minute);
    SplitHourAndMinute(a.hour, a.minute, b.hour, b.minute);
    SameDaySameYear(a.year, a.month - 1, a.day, b.year, b.month - 1, b.day);
    SameYearSameDate(a.year, a.month - 1, a.day, b.month - 1, b.day);
  }

  lemma SplitHourAndMinute(h: int, mi: int, h': int, mi': int)
    requires 0 <= mi < 60 && 0 <= mi' < 60
    requires h * 60 + mi == h' * 60 + mi'
    ensures h == h' && mi == mi'
  {
  }

  /** Valid dates with the same day number lie in the same year. */
  lemma SameDaySameYear(y: int, m: int, d: int, y': int, m': int, d': int)
    requires 0 <= m < 12 && 1 <= d <= DaysInMonth(y, m)
    requires 0 <= m' < 12 && 1 <= d' <= DaysInMonth(y', m')
    requires DayNumber(y, m, d) == DayNumber(y', m', d')
    ensures y == y'
  {
    DayNumberInYear(y, m, d);
    DayNumberInYear(y', m', d');
    YearSpansDisjoint(y, y', DayNumber(y, m, d));
  }

  /** The spans of day numbers of two different years do not overlap. */
  lemma YearSpansDisjoint(y: int, y': int, day: int)
    requires DayFromYear(y) <= day < DayFromYear(y) + DaysInYear(y)
    requires DayFromYear(y') <= day < DayFromYear(y') + DaysInYear(y')
    ensures y == y'
  {
    if y < y' {
      YearEndsBefore(y, y');
    } else if y' < y {
      YearEndsBefore(y', y);
    }
  }

  /** A year ends no later than any later year starts. */
  lemma YearEndsBefore(y: int, y': int)
    requires y < y'
    ensures DayFromYear(y) + DaysInYear(y) <= DayFromYear(y')
  {
    DayFromYearStep(y);
    DayFromYearMonotone(y + 1, y');
  }

  /** A time value splits uniquely into a day number and a minute of the day. */
  lemma SplitDayAndTime(da: int, ta: int, db: int, tb: int)
    requires 0 <= ta < MinutesPerDay && 0 <= tb < MinutesPerDay
    requires da * MinutesPerDay + ta == db * MinutesPerDay + tb
    ensures da == db && ta == tb
  {
  }

  /** Within one year, a day number names one month and day. */
  lemma SameYearSameDate(y: int, m: int, d: int, m': int, d': int)
    requires 0 <= m < 12 && 1 <= d <= DaysInMonth(y, m)
    requires 0 <= m' < 12 && 1 <= d' <= DaysInMonth(y, m')
    requires DayNumber(y, m, d) == DayNumber(y, m', d')
    ensures m == m' && d == d'
  {
    if m < m' {
      MonthsOrdered(y, m, m');
    } else if m' < m {
      MonthsOrdered(y, m', m);
    }
  }

  /** Each month ends before any later month of the same year starts. */
  lemma MonthsOrdered(y: int, m: int, m': int)
    requires 0 <= m < m' < 12
    ensures MonthStart(y, m) + DaysInMonth(y, m) <= MonthStart(y, m')
  {
    var k := m + 1;
    MonthStartStep(y, m);
    while k < m'
      invariant m + 1 <= k <= m'
      invariant MonthStart(y, m) + DaysInMonth(y, m) <= MonthStart(y, k)
    {
      MonthStartStep(y, k);
      k := k + 1;
    }
  }

  /** The constructor reads a wall clock reading with a year outside 0..99
      as that reading's time value, or `NaN` beyond TimeClip's range; the
      month is passed as an index, one below the written month. */
  lemma NewDateOfReading(year: int, month: int, day: int, hour: int, minute: int)
    requires 1 <= month <= 12 && !(0 <= year <= 99)
    ensures NewDate(Some(year), Some(month - 1), Some(day), Some(hour), Some(minute))
         == TimeClip(Encode(WallClock(year, month, day, hour, minute)))
  {
    NewDateInRange(year, month - 1, day, hour, minute);
  }

  /** The constructor with a month inside 0..11 and a year outside 0..99. */
  lemma NewDateInRange(y: int, m0: int, d: int, h: int, mi: int)
    requires 0 <= m0 < 12 && !(0 <= y <= 99)
    ensures NewDate(Some(y), Some(m0), Some(d), Some(h), Some(mi)) == TimeClip(DayNumber(y, m0, d) * MinutesPerDay + h * 60 + mi)
  {
    MakeDayPlain(y, m0, d);
  }
}
