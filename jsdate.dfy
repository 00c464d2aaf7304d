/** JavaScript `Date`, reduced to what the time codec observes: a local calendar day (opaque) and a
    time of day in milliseconds, or the invalid date. The calls that depend on the time zone, the
    host's date-string parser or the clock are fields of `Host`. */
module JsDate {
  import opened JsText

  const MsPerSecond: int := 1000
  const MsPerMinute: int := 60000
  const MsPerHour: int := 3600000
  const MsPerDay: int := 86400000

  datatype RawDate = InvalidDate | Moment(day: int, msOfDay: int)

  /** A date is invalid (`isNaN(d.getTime())`) or a local day with a time of day within it. */
  type Date = d: RawDate | d.InvalidDate? || 0 <= d.msOfDay < MsPerDay witness InvalidDate

  /** A time of day as `getHours()`, `getMinutes()` and `getSeconds()` report it. */
  datatype TimeOfDay = TimeOfDay(hour: int, minute: int, second: int) {
    predicate Valid() { 0 <= hour < 24 && 0 <= minute < 60 && 0 <= second < 60 }
  }

  /** The local time of day of a valid date (milliseconds are dropped, as the getters do). */
  function Tod(d: Date): (t: TimeOfDay)
    requires d.Moment?
    ensures t.Valid()
  {
    TimeOfDay(d.msOfDay / MsPerHour, (d.msOfDay / MsPerMinute) % 60, (d.msOfDay / MsPerSecond) % 60)
  }

  /** `d.setHours(h, m, s, 0)`: keeps the local day and replaces the time of day; out-of-range
      fields carry into neighbouring days; NaN anywhere (or an invalid date) gives the invalid date. */
  function SetHours(d: Date, h: Option<int>, m: Option<int>, s: Option<int>): (r: Date)
    ensures r.Moment? <==> d.Moment? && h.Some? && m.Some? && s.Some?
  {
    if d.InvalidDate? || h.None? || m.None? || s.None? then InvalidDate
    else
      var total := h.value * MsPerHour + m.value * MsPerMinute + s.value * MsPerSecond;
      Moment(d.day + total / MsPerDay, total % MsPerDay)
  }

  /** The milliseconds since midnight of an in-range time of day. */
  function MsOf(t: TimeOfDay): int {
    t.hour * MsPerHour + t.minute * MsPerMinute + t.second * MsPerSecond
  }

  /** Setting an in-range time of day stays on the same day, and the getters read it back. */
  lemma SetHoursInRange(d: Date, t: TimeOfDay)
    requires d.Moment? && t.Valid()
    ensures SetHours(d, Some(t.hour), Some(t.minute), Some(t.second)) == Moment(d.day, MsOf(t))
    ensures Tod(Moment(d.day, MsOf(t))) == t
  {
    var total := MsOf(t);
    assert 0 <= total < MsPerDay by { TodBounds(t); }
    assert total / MsPerDay == 0 && total % MsPerDay == total;
    TodOfMs(t);
  }

  lemma TodBounds(t: TimeOfDay)
    requires t.Valid()
    ensures 0 <= MsOf(t) < MsPerDay
  {
    assert t.hour * MsPerHour <= 23 * MsPerHour;
    assert t.minute * MsPerMinute <= 59 * MsPerMinute;
  }

  lemma TodOfMs(t: TimeOfDay)
    requires t.Valid()
    ensures MsOf(t) / MsPerHour == t.hour
    ensures (MsOf(t) / MsPerMinute) % 60 == t.minute
    ensures (MsOf(t) / MsPerSecond) % 60 == t.second
  {
    var rest := t.minute * MsPerMinute + t.second * MsPerSecond;
    assert 0 <= rest < MsPerHour;
    assert MsOf(t) == t.hour * MsPerHour + rest;
    DivMixed(t.hour, MsPerHour, rest);
    var secs := t.hour * 3600 + t.minute * 60 + t.second;
    assert MsOf(t) == secs * MsPerSecond;
    DivMixed(secs, MsPerSecond, 0);
    assert (MsOf(t) / MsPerSecond) == secs;
    var mins := t.hour * 60 + t.minute;
    assert MsOf(t) == mins * MsPerMinute + t.second * MsPerSecond;
    DivMixed(mins, MsPerMinute, t.second * MsPerSecond);
    assert MsOf(t) / MsPerMinute == mins;
    DivMixed(t.hour, 60, t.minute);
    DivMixed(t.hour * 60 + t.minute, 60, t.second);
  }

  lemma DivMixed(q: int, d: int, r: int)
    requires d > 0 && 0 <= r < d
    ensures (q * d + r) / d == q && (q * d + r) % d == r
  {
    var a := q * d + r;
    var k, m := a / d, a % d;
    assert a == d * k + m && 0 <= m < d;
    assert d * (k - q) == r - m;
    if k - q >= 1 {
      MulAtLeast(d, k - q);
    } else if k - q <= -1 {
      MulAtLeast(d, q - k);
    }
  }

  lemma MulAtLeast(x: int, y: int)
    requires x > 0 && y >= 1
    ensures x * y >= x
  {
  }

  /** Month (1..12), day of month and full year of a local day, as `getMonth() + 1`, `getDate()` and
      `getFullYear()` report them. */
  datatype CalendarDay = CalendarDay(month: int, dayOfMonth: int, year: int)

  /** The host environment: the time zone, the clock and the host's date-string parser. */
  datatype Host = Host(
    today: int,                      // the local day of `new Date()`
    fromEpochMs: int -> Date,        // `new Date(ms)`
    parse: string -> Date,           // `new Date(text)`
    epochMs: Date -> int,            // `d.getTime()` of a valid date
    iso: Date -> string,             // `d.toISOString()` of a valid date
    calendar: int -> CalendarDay     // the calendar fields of a local day
  )

  /** `new Date()`; its time of day is irrelevant because every use overwrites it with setHours. */
  function Now(host: Host): (d: Date)
    ensures d.Moment?
  {
    Moment(host.today, 0)
  }

  /** `new Date(d.getTime())` gives `d` back: the time zone mapping is one-to-one. */
  ghost predicate EpochRoundTrips(host: Host) {
    forall d: Date | d.Moment? :: host.fromEpochMs(host.epochMs(d)) == d
  }

  /** The time zone offset is a whole number of seconds. */
  ghost predicate WholeSecondOffset(host: Host) {
    forall d: Date | d.Moment? :: host.epochMs(d) % MsPerSecond == d.msOfDay % MsPerSecond
  }
}
