/** The shared time codec: classifying a caller's value, reading it into the canonical display
    string (or an hour/minute/period triple for the clock), and writing a display string back into
    the caller's encoding. */
module Codec {
  import opened JsText
  import opened JsDate
  import opened TimeFormat

  /** The six encodings a caller can ask for. */
  datatype ReturnType = TimeString | IsoString | DatetimeString | UnixSeconds | UnixMilliseconds | DateObject

  /** A caller-facing value: `null`, `undefined`, an integral number, NaN, a `Date` or a string. */
  datatype Value = Null | Undefined | Num(n: int) | NotANumber | DateVal(date: Date) | Str(s: string)

  /** `s.includes(t)` for a string needle. */
  predicate IncludesText(s: string, t: string)
    decreases |s|
  {
    (|t| <= |s| && s[..|t|] == t) || (s != [] && IncludesText(s[1..], t))
  }

  /** Strings the detector reads as ISO timestamps. */
  predicate IsoLike(s: string) { 'T' in s && '-' in s }

  /** Strings the detector reads as "MM/DD/YYYY HH:MM:SS AM/PM" datetimes. */
  predicate DatetimeLike(s: string) {
    '/' in s && (IncludesText(s, "AM") || IncludesText(s, "PM") || ':' in s)
  }

  /** `detectReturnType`: total; numbers by the length of their decimal text, dates as date objects,
      strings by content with the ISO test first, and "time-string" for everything else. */
  function DetectReturnType(v: Value): (r: ReturnType)
    ensures r == UnixSeconds <==> v.Num? && |NumberText(v.n)| == 10
    ensures r == UnixMilliseconds <==> (v.Num? && |NumberText(v.n)| != 10) || v.NotANumber?
    ensures r == DateObject <==> v.DateVal?
    ensures r == IsoString <==> v.Str? && IsoLike(v.s)
    ensures r == DatetimeString <==> v.Str? && !IsoLike(v.s) && DatetimeLike(v.s)
    ensures v.Null? || v.Undefined? || (v.Str? && Trim(v.s) == "") ==> r == TimeString
  {
    match v
    case Null => TimeString
    case Undefined => TimeString
    case Num(n) => if |NumberText(n)| == 10 then UnixSeconds else UnixMilliseconds
    case NotANumber => UnixMilliseconds    // "NaN" has three characters
    case DateVal(_) => DateObject
    case Str(s) =>
      if Trim(s) == "" then (TrimBlank(s); TimeString)
      else if IsoLike(s) then IsoString
      else if DatetimeLike(s) then DatetimeString
      else TimeString
  }

  /** `returnType || detectReturnType(value)`. */
  function ActualReturnType(explicit: Option<ReturnType>, value: Value): ReturnType {
    if explicit.Some? then explicit.value else DetectReturnType(value)
  }

  // ---------------------------------------------------------------------------
  // The time-only pattern /^(\d{1,2}):(\d{2})(?::(\d{2}))?\s?(AM|PM)?$/i

  /** The groups of a match, with the optional whitespace between the clock and the period kept so
      that a match can be rendered back exactly. */
  datatype TimeMatch = TimeMatch(hour: string, minute: string, second: Option<string>, gap: string,
                                 period: Option<string>)

  /** `AM` or `PM` in any letter case. */
  predicate IsAmPm(p: string) {
    |p| == 2 && (UpperChar(p[0]) == 'A' || UpperChar(p[0]) == 'P') && UpperChar(p[1]) == 'M'
  }

  predicate WellFormedMatch(tm: TimeMatch) {
    1 <= |tm.hour| <= 2 && AllDigits(tm.hour) &&
    |tm.minute| == 2 && AllDigits(tm.minute) &&
    (tm.second.Some? ==> |tm.second.value| == 2 && AllDigits(tm.second.value)) &&
    (tm.gap == "" || (|tm.gap| == 1 && IsSpace(tm.gap[0]))) &&
    (tm.period.Some? ==> IsAmPm(tm.period.value))
  }

  /** The text a match was read from. */
  function RenderMatch(tm: TimeMatch): string {
    tm.hour + ":" + tm.minute + (SecondText(tm) + tm.gap + PeriodText(tm))
  }

  function SecondText(tm: TimeMatch): string {
    if tm.second.Some? then ":" + tm.second.value else ""
  }

  function PeriodText(tm: TimeMatch): string {
    if tm.period.Some? then tm.period.value else ""
  }

  /** The length of the hour group: two digits when a ':' follows them, else one digit when a ':'
      follows it, else 0 (no match). */
  function HourLength(s: string): (k: nat)
    ensures k <= 2 && (k > 0 ==> |s| > k && s[k] == ':' && AllDigits(s[..k]))
  {
    if |s| >= 3 && IsDigit(s[0]) && IsDigit(s[1]) && s[2] == ':' then 2
    else if |s| >= 2 && IsDigit(s[0]) && s[1] == ':' then 1
    else 0
  }

  /** Matching the anchored time-only pattern. The hour takes two digits when a ':' follows them and
      one otherwise; a ':' after the minute must start the seconds group; one whitespace character may
      precede the optional period. */
  function MatchTimeOnly(s: string): (r: Option<TimeMatch>)
    ensures r.Some? ==> 1 <= |r.value.hour| <= 2 && |r.value.hour| + 3 <= |s| && AllDigits(r.value.hour) &&
                        s[..|r.value.hour|] == r.value.hour &&
                        s[|r.value.hour|] == ':' && r.value.minute == s[|r.value.hour| + 1..|r.value.hour| + 3]
  {
    var hl := HourLength(s);
    if hl == 0 || |s| < hl + 3 || !IsDigit(s[hl + 1]) || !IsDigit(s[hl + 2]) then None
    else
      var r := MatchSeconds(s[..hl], s[hl + 1..hl + 3], s[hl + 3..]);
      if r.Some? then MatchSecondsRenders(s[..hl], s[hl + 1..hl + 3], s[hl + 3..]); r else r
  }

  /** The text after the minute: an optional ":SS" group, then the period part. */
  function MatchSeconds(hour: string, minute: string, r: string): Option<TimeMatch> {
    if |r| >= 3 && r[0] == ':' && IsDigit(r[1]) && IsDigit(r[2]) then MatchPeriod(hour, minute, Some(r[1..3]), r[3..])
    else MatchPeriod(hour, minute, None, r)
  }

  /** The text after the clock: at most one whitespace character, then nothing or AM/PM. */
  function MatchPeriod(hour: string, minute: string, second: Option<string>, tail: string): Option<TimeMatch> {
    var gl := if tail != [] && IsSpace(tail[0]) then 1 else 0;
    var p := tail[gl..];
    if p != [] && !IsAmPm(p) then None
    else Some(TimeMatch(hour, minute, second, tail[..gl], if p == [] then None else Some(p)))
  }

  lemma MatchPeriodRenders(hour: string, minute: string, second: Option<string>, tail: string)
    requires MatchPeriod(hour, minute, second, tail).Some?
    ensures var tm := MatchPeriod(hour, minute, second, tail).value;
      tm.hour == hour && tm.minute == minute && tm.second == second && tm.gap + PeriodText(tm) == tail &&
      (tm.gap == "" || (|tm.gap| == 1 && IsSpace(tm.gap[0]))) && (tm.period.Some? ==> IsAmPm(tm.period.value))
  {
  }

  lemma MatchSecondsRenders(hour: string, minute: string, r: string)
    requires MatchSeconds(hour, minute, r).Some?
    ensures var tm := MatchSeconds(hour, minute, r).value;
      tm.hour == hour && tm.minute == minute && SecondText(tm) + tm.gap + PeriodText(tm) == r &&
      (tm.second.Some? ==> |tm.second.value| == 2 && AllDigits(tm.second.value)) &&
      (tm.gap == "" || (|tm.gap| == 1 && IsSpace(tm.gap[0]))) && (tm.period.Some? ==> IsAmPm(tm.period.value))
  {
    if |r| >= 3 && r[0] == ':' && IsDigit(r[1]) && IsDigit(r[2]) {
      MatchPeriodRenders(hour, minute, Some(r[1..3]), r[3..]);
      assert r == ":" + r[1..3] + r[3..];
    } else {
      MatchPeriodRenders(hour, minute, None, r);
    }
  }

  /** A match is exactly a well-formed rendering: what the matcher returns renders back to its input. */
  lemma MatchRendersInput(s: string)
    requires MatchTimeOnly(s).Some?
    ensures WellFormedMatch(MatchTimeOnly(s).value) && RenderMatch(MatchTimeOnly(s).value) == s
  {
    var hl := HourLength(s);
    var hour, minute, r := s[..hl], s[hl + 1..hl + 3], s[hl + 3..];
    assert MatchTimeOnly(s) == MatchSeconds(hour, minute, r) && |minute| == 2 && AllDigits(minute) by {
      assert hl > 0 && |s| >= hl + 3 && IsDigit(s[hl + 1]) && IsDigit(s[hl + 2]);
    }
    assert s == hour + ":" + minute + r by {
      assert s[hl] == ':';
    }
    MatchSecondsRenders(hour, minute, r);
  }

  lemma MatchPeriodOfRender(tm: TimeMatch)
    requires WellFormedMatch(tm)
    ensures MatchPeriod(tm.hour, tm.minute, tm.second, tm.gap + PeriodText(tm)) == Some(tm)
  {
    var tail := tm.gap + PeriodText(tm);
    var gl := |tm.gap|;
    assert tail[..gl] == tm.gap && tail[gl..] == PeriodText(tm);
    if tm.gap == [] && PeriodText(tm) != [] {
      AmPmNotSpace(tm.period.value);
      assert tail[0] == PeriodText(tm)[0];
    }
  }

  /** A period starts with a letter: neither whitespace nor a colon. */
  lemma AmPmNotSpace(p: string)
    requires IsAmPm(p)
    ensures !IsSpace(p[0]) && p[0] != ':'
  {
  }

  lemma MatchSecondsOfRender(tm: TimeMatch)
    requires WellFormedMatch(tm)
    ensures MatchSeconds(tm.hour, tm.minute, SecondText(tm) + tm.gap + PeriodText(tm)) == Some(tm)
  {
    var r := SecondText(tm) + tm.gap + PeriodText(tm);
    MatchPeriodOfRender(tm);
    if tm.second.Some? {
      assert r[1..3] == tm.second.value && r[3..] == tm.gap + PeriodText(tm);
    } else {
      assert r == tm.gap + PeriodText(tm);
      if r != [] {
        assert r[0] != ':' by {
          if tm.gap != [] { assert r[0] == tm.gap[0]; } else { assert r[0] == PeriodText(tm)[0]; }
        }
      }
    }
  }

  /** ... and every well-formed rendering is matched, with the same groups. */
  lemma MatchOfRender(tm: TimeMatch)
    requires WellFormedMatch(tm)
    ensures MatchTimeOnly(RenderMatch(tm)) == Some(tm)
  {
    var s := RenderMatch(tm);
    var hl := |tm.hour|;
    var r := SecondText(tm) + tm.gap + PeriodText(tm);
    assert s[..hl] == tm.hour && s[hl] == ':' && s[hl + 1..hl + 3] == tm.minute && s[hl + 3..] == r;
    assert HourLength(s) == hl;
    MatchSecondsOfRender(tm);
  }

  // ---------------------------------------------------------------------------
  // parseTimeFromValue

  /** The hour handed to `setHours` for a time-only match. With a period, PM adds 12 below 12 and 12 AM
      becomes 0. Without one, the code as written folds the hour into 1..12 on the 12-hour clock and
      drops the AM/PM it derived; the corrected reading keeps the 24-hour hour. */
  function TimeOnlyHour(tm: TimeMatch, is12: bool, asWritten: bool): int
    requires AllDigits(tm.hour)
  {
    var h := DecValue(tm.hour);
    if tm.period.None? then
      (if is12 && asWritten then Hour12(h) else h)
    else
      var p := ToUpper(tm.period.value);
      if p == "PM" && h < 12 then h + 12 else if p == "AM" && h == 12 then 0 else h
  }

  /** The date `parseTimeFromValue` reads a value as, or None where it returns "" without building one.
      Ten-character numbers are seconds; time-only strings are set on today's date; any other string
      goes to the host's date parser. */
  function ResolveDate(host: Host, v: Value, is12: bool, asWritten: bool): (r: Option<Date>)
    ensures r.None? <==> v.Null? || v.Undefined? || (v.Str? && Trim(v.s) == "")
  {
    match v
    case Null => None
    case Undefined => None
    case Num(n) => Some(host.fromEpochMs(if |NumberText(n)| == 10 then n * 1000 else n))
    case NotANumber => Some(InvalidDate)
    case DateVal(d) => Some(d)
    case Str(s) =>
      if s == "" || Trim(s) == "" then None
      else
        match MatchTimeOnly(Trim(s))
        case Some(tm) =>
          MatchRendersInput(Trim(s));
          Some(SetHours(Now(host), Some(TimeOnlyHour(tm, is12, asWritten)), Some(DecValue(tm.minute)),
                        Some(if tm.second.Some? then DecValue(tm.second.value) else 0)))
        case None => Some(host.parse(s))
  }

  /** The display text of a resolved date: "" for the invalid date. */
  function ShowDate(d: Date, showSeconds: bool, is12: bool): (r: string)
    ensures r == "" || (IsValidTime(r, Canonical(showSeconds, is12)) &&
                        |r| == 2 + TailLength(Canonical(showSeconds, is12)))
  {
    if d.InvalidDate? then "" else DisplayValid(Tod(d), showSeconds, is12); Display(Tod(d), showSeconds, is12)
  }

  function ShowResolved(od: Option<Date>, showSeconds: bool, is12: bool): (r: string)
    ensures r == "" || (IsValidTime(r, Canonical(showSeconds, is12)) &&
                        |r| == 2 + TailLength(Canonical(showSeconds, is12)))
  {
    if od.None? then "" else ShowDate(od.value, showSeconds, is12)
  }

  /** `parseTimeFromValue` as written. Blank inputs and unreadable dates give ""; everything else gives
      a canonical string: two-digit hour and minute, ":SS" exactly when seconds are shown, " AM"/" PM"
      exactly on the 12-hour clock with the hour in 01..12, otherwise the hour in 00..23. */
  function ParseTimeFromValue(host: Host, v: Value, showSeconds: bool, is12: bool): (r: string)
    ensures v.Null? || v.Undefined? || (v.Str? && Trim(v.s) == "") ==> r == ""
    ensures r == "" || (IsValidTime(r, Canonical(showSeconds, is12)) &&
                        |r| == 2 + TailLength(Canonical(showSeconds, is12)))
  {
    ShowResolved(ResolveDate(host, v, is12, true), showSeconds, is12)
  }

  /** `parseTimeFromValue` with an input that has no period read as a 24-hour time on both clocks. */
  function ParseTimeFromValueCorrected(host: Host, v: Value, showSeconds: bool, is12: bool): (r: string)
    ensures v.Null? || v.Undefined? || (v.Str? && Trim(v.s) == "") ==> r == ""
    ensures r == "" || (IsValidTime(r, Canonical(showSeconds, is12)) &&
                        |r| == 2 + TailLength(Canonical(showSeconds, is12)))
  {
    ShowResolved(ResolveDate(host, v, is12, false), showSeconds, is12)
  }

  // ---------------------------------------------------------------------------
  // convertTimeToReturnType / convertClockTimeToReturnType

  /** The value of an empty time, by encoding. */
  function EmptyFor(rt: ReturnType): (r: Value)
    ensures rt in {TimeString, IsoString, DatetimeString} ==> r == Str("")
    ensures rt in {UnixSeconds, UnixMilliseconds} ==> r == Num(0)
    ensures rt == DateObject ==> r == Null
  {
    match rt
    case TimeString => Str("")
    case IsoString => Str("")
    case DatetimeString => Str("")
    case UnixSeconds => Num(0)
    case UnixMilliseconds => Num(0)
    case DateObject => Null
  }

  /** `MM/DD/YYYY` of a date's local day; every field of the invalid date reads NaN. */
  function CalendarText(host: Host, d: Date): string {
    if d.InvalidDate? then "NaN/NaN/NaN"
    else
      var c := host.calendar(d.day);
      Pad2(c.month) + "/" + Pad2(c.dayOfMonth) + "/" + NumberText(c.year)
  }

  /** The part of both converters after the fields are known: the time of day `(h, m, s)` (None is NaN)
      set on today's date (or, for ISO strings and dates, on the original value's date) and written in
      the requested encoding. `toISOString` throws on the invalid date; the converter catches that and
      returns the time string. The unix encodings always use today's date. */
  function Encode(host: Host, rt: ReturnType, timeString: string, h: Option<int>, m: Option<int>,
                  s: Option<int>, orig: Value): (r: Value)
    ensures rt == TimeString ==> r == Str(timeString)
    ensures rt in {IsoString, DatetimeString} ==> r.Str?
    ensures rt in {UnixSeconds, UnixMilliseconds} ==>
              (r.Num? || r.NotANumber?) && (r.NotANumber? <==> h.None? || m.None? || s.None?)
    ensures rt == DateObject ==>
              r.DateVal? && (r.date.Moment? <==> !(orig.DateVal? && orig.date.InvalidDate?) && h.Some? && m.Some? && s.Some?)
  {
    var timeDate := SetHours(Now(host), h, m, s);
    match rt
    case TimeString => Str(timeString)
    case IsoString =>
      var d := if orig.Str? && 'T' in orig.s then SetHours(host.parse(orig.s), h, m, s) else timeDate;
      if d.InvalidDate? then Str(timeString) else Str(host.iso(d))
    case DatetimeString =>
      if orig.Str? && '/' in orig.s then Str(Split(orig.s, ' ')[0] + " " + timeString)
      else Str(CalendarText(host, timeDate) + " " + timeString)
    case UnixSeconds =>
      if timeDate.InvalidDate? then NotANumber else Num(host.epochMs(timeDate) / MsPerSecond)
    case UnixMilliseconds =>
      if timeDate.InvalidDate? then NotANumber else Num(host.epochMs(timeDate))
    case DateObject =>
      DateVal(if orig.DateVal? then SetHours(orig.date, h, m, s) else timeDate)
  }

  /** A 12-hour hour and its period as a 24-hour hour: PM adds 12 except at 12, and 12 AM is 0. */
  function Fold24(h: Option<int>, period: string): Option<int> {
    if h.None? then None
    else if period == "PM" && h.value != 12 then Some(h.value + 12)
    else if period == "AM" && h.value == 12 then Some(0)
    else h
  }

  /** The fields `convertTimeToReturnType` reads from a display string: the text before the first space
      split on ':' into hour, minute and second (second "0" when absent, NaN for a missing minute), and
      the hour folded with the text after the first space. */
  datatype Fields = Fields(hour: Option<int>, minute: Option<int>, second: Option<int>)

  function ReadFields(timeString: string): (r: Fields)
    ensures timeString == "" ==> r.hour.None?
    ensures ' ' !in timeString && ':' !in timeString ==> r.minute.None? && r.second == Some(0)
  {
    if ' ' !in timeString && ':' !in timeString then SplitWithout(timeString, ':'); ReadFieldsOf(timeString)
    else ReadFieldsOf(timeString)
  }

  function ReadFieldsOf(timeString: string): Fields {
    var pieces := Split(timeString, ' ');
    var time := if ' ' in timeString then pieces[0] else timeString;
    var period := if ' ' in timeString then ItemOr(pieces, 1) else "";
    var parts := Split(time, ':');
    Fields(Fold24(ParseInt(parts[0]), period),
           if |parts| > 1 then ParseInt(parts[1]) else None,
           if |parts| > 2 then ParseInt(parts[2]) else Some(0))
  }

  /** `convertTimeToReturnType`. */
  function ConvertTimeToReturnType(host: Host, timeString: string, rt: ReturnType, orig: Value): (r: Value)
    ensures timeString == "" ==> r == EmptyFor(rt)
    ensures timeString != "" && rt == TimeString ==> r == Str(timeString)
    ensures timeString != "" && rt == DatetimeString && orig.Str? && '/' in orig.s ==>
              r == Str(Split(orig.s, ' ')[0] + " " + timeString)
  {
    if timeString == "" then EmptyFor(rt)
    else
      var f := ReadFields(timeString);
      Encode(host, rt, timeString, f.hour, f.minute, f.second, orig)
  }

  /** `convertClockTimeToReturnType`: the hour, minute and period of the clock, written as
      "HH:MM PERIOD" and encoded like a display string, with seconds 0. */
  function ClockText(hour: int, minute: int, period: string): string {
    Pad2(hour) + ":" + Pad2(minute) + " " + period
  }

  function ConvertClockTimeToReturnType(host: Host, hour: int, minute: int, period: string,
                                        rt: ReturnType, orig: Value): (r: Value)
    ensures rt == TimeString ==> r == Str(ClockText(hour, minute, period))
  {
    Encode(host, rt, ClockText(hour, minute, period), Some(Clock24(hour, period)), Some(minute), Some(0), orig)
  }

  // ---------------------------------------------------------------------------
  // getTimes

  /** The separators of `time.split(/[:\s]/)`. */
  predicate IsTimeSep(c: char) { c == ':' || IsSpace(c) }

  /** The parts of a display string; missing parts are "". */
  datatype Parts = Parts(hour: string, minute: string, second: string, period: string)

  /** `getTimes`: the pieces between ':' and whitespace; with seconds the 4th piece is the period,
      without them the 3rd; the period is upper-cased and the second is "" when seconds are off. */
  function GetTimes(time: string, showSeconds: bool): (r: Parts)
    ensures !showSeconds ==> r.second == ""
    ensures ToUpper(r.period) == r.period
  {
    var p := SplitWhere(time, IsTimeSep);
    ToUpperIdempotent(ItemOr(p, if showSeconds then 3 else 2));
    if showSeconds then Parts(ItemOr(p, 0), ItemOr(p, 1), ItemOr(p, 2), ToUpper(ItemOr(p, 3)))
    else Parts(ItemOr(p, 0), ItemOr(p, 1), "", ToUpper(ItemOr(p, 2)))
  }

  // ---------------------------------------------------------------------------
  // parseClockTimeFromValue

  datatype ClockTime = ClockTime(hour: int, minute: int, period: string)

  const DefaultClockTime := ClockTime(12, 0, "AM")

  /** The clock fields of a resolved date: 12-hour hour, minute and period; the default for the
      invalid date. */
  function ClockOfDate(d: Date): (c: ClockTime)
    ensures d.Moment? ==> 1 <= c.hour <= 12 && 0 <= c.minute < 60 && c.period in {"AM", "PM"}
  {
    if d.InvalidDate? then DefaultClockTime
    else
      var t := Tod(d);
      ClockTime(Hour12(t.hour), t.minute, PeriodOf(t.hour))
  }

  /** The clock fields of a time-only match. With a period the hour and minute are taken as typed. As
      written, an input without a period has 0 read as 12, hours above 12 reduced by 12, and the
      period "AM"; the corrected reading makes hours 12 and above PM. */
  function ClockOfMatch(tm: TimeMatch, asWritten: bool): ClockTime
    requires AllDigits(tm.hour) && AllDigits(tm.minute)
  {
    var h := DecValue(tm.hour);
    var m := DecValue(tm.minute);
    if tm.period.Some? then ClockTime(h, m, ToUpper(tm.period.value))
    else ClockTime(if h == 0 then 12 else if h > 12 then h - 12 else h, m,
                   if asWritten || h < 12 then "AM" else "PM")
  }

  function ClockFromValue(host: Host, v: Value, asWritten: bool): ClockTime {
    match v
    case Null => DefaultClockTime
    case Undefined => DefaultClockTime
    case Num(n) => ClockOfDate(host.fromEpochMs(if |NumberText(n)| == 10 then n * 1000 else n))
    case NotANumber => DefaultClockTime
    case DateVal(d) => ClockOfDate(d)
    case Str(s) =>
      if s == "" || Trim(s) == "" then DefaultClockTime
      else
        match MatchTimeOnly(Trim(s))
        case Some(tm) => MatchRendersInput(Trim(s)); ClockOfMatch(tm, asWritten)
        case None => ClockOfDate(host.parse(s))
  }

  /** `parseClockTimeFromValue` as written: 12:00 AM for blank or unreadable values. */
  function ParseClockTimeFromValue(host: Host, v: Value): (c: ClockTime)
    ensures v.Null? || v.Undefined? || v.NotANumber? || (v.Str? && Trim(v.s) == "") ==> c == DefaultClockTime
    ensures v.DateVal? && v.date.InvalidDate? ==> c == DefaultClockTime
  {
    ClockFromValue(host, v, true)
  }

  /** `parseClockTimeFromValue` with a period-less 24-hour input keeping its afternoon. */
  function ParseClockTimeFromValueCorrected(host: Host, v: Value): (c: ClockTime)
    ensures v.Null? || v.Undefined? || v.NotANumber? || (v.Str? && Trim(v.s) == "") ==> c == DefaultClockTime
    ensures v.DateVal? && v.date.InvalidDate? ==> c == DefaultClockTime
  {
    ClockFromValue(host, v, false)
  }

  // ---------------------------------------------------------------------------
  // Reading back what the codec writes

  lemma UpperPeriod(p: string)
    requires p == "AM" || p == "PM"
    ensures ToUpper(p) == p && IsAmPm(p)
  {
    assert ToUpper(p)[0] == p[0] && ToUpper(p)[1] == p[1];
  }

  /** A match with no whitespace at either end of its rendering. */
  predicate Trimmed(tm: TimeMatch) { tm.period.Some? || tm.gap == "" }

  lemma RenderTrimmed(tm: TimeMatch)
    requires WellFormedMatch(tm) && Trimmed(tm)
    ensures Trim(RenderMatch(tm)) == RenderMatch(tm)
  {
    var s := RenderMatch(tm);
    var r := SecondText(tm) + tm.gap + PeriodText(tm);
    assert s == tm.hour + ":" + tm.minute + r;
    assert s[0] == tm.hour[0];
    if tm.period.Some? {
      assert s[|s| - 1] == tm.period.value[1];
    } else if tm.second.Some? {
      assert s[|s| - 1] == tm.second.value[1];
    } else {
      assert s[|s| - 1] == tm.minute[1];
    }
    TrimNoSpaceEnds(s);
  }

  /** A trimmed rendering of a match is read as a time of day set on today's date. */
  lemma ResolveRendered(host: Host, tm: TimeMatch, is12: bool, asWritten: bool)
    requires WellFormedMatch(tm) && Trimmed(tm)
    ensures ResolveDate(host, Str(RenderMatch(tm)), is12, asWritten) ==
            Some(SetHours(Now(host), Some(TimeOnlyHour(tm, is12, asWritten)), Some(DecValue(tm.minute)),
                          Some(if tm.second.Some? then DecValue(tm.second.value) else 0)))
  {
    RenderTrimmed(tm);
    MatchOfRender(tm);
  }

  /** ... and its clock fields are those of the match. */
  lemma ClockRendered(host: Host, tm: TimeMatch, asWritten: bool)
    requires WellFormedMatch(tm) && Trimmed(tm)
    ensures ClockFromValue(host, Str(RenderMatch(tm)), asWritten) == ClockOfMatch(tm, asWritten)
  {
    RenderTrimmed(tm);
    MatchOfRender(tm);
    ClockOfTimeOnly(host, RenderMatch(tm), tm, asWritten);
  }

  /** The clock reads a time-only string by its groups. */
  lemma ClockOfTimeOnly(host: Host, s: string, tm: TimeMatch, asWritten: bool)
    requires Trim(s) == s && MatchTimeOnly(s) == Some(tm) && WellFormedMatch(tm)
    ensures ClockFromValue(host, Str(s), asWritten) == ClockOfMatch(tm, asWritten)
  {
    assert s != "" && Trim(s) != "";
  }

  /** The groups of a displayed time. */
  function DisplayMatch(t: TimeOfDay, showSeconds: bool, is12: bool): TimeMatch {
    TimeMatch(Pad2(if is12 then Hour12(t.hour) else t.hour), Pad2(t.minute),
              if showSeconds then Some(Pad2(t.second)) else None,
              if is12 then " " else "", if is12 then Some(PeriodOf(t.hour)) else None)
  }

  lemma DisplayIsRender(t: TimeOfDay, showSeconds: bool, is12: bool)
    requires t.Valid()
    ensures WellFormedMatch(DisplayMatch(t, showSeconds, is12)) && Trimmed(DisplayMatch(t, showSeconds, is12))
    ensures RenderMatch(DisplayMatch(t, showSeconds, is12)) == Display(t, showSeconds, is12)
  {
    var tm := DisplayMatch(t, showSeconds, is12);
    Pad2Shape(if is12 then Hour12(t.hour) else t.hour);
    Pad2Shape(t.minute);
    Pad2Shape(t.second);
    if is12 { UpperPeriod(PeriodOf(t.hour)); }
    RenderOfFields(tm.hour, tm.minute, Pad2(t.second), PeriodOf(t.hour), showSeconds, is12);
  }

  /** The rendering of the groups of "H:M[:S][ P]". */
  lemma RenderOfFields(h: string, m: string, sc: string, p: string, showSeconds: bool, is12: bool)
    ensures RenderMatch(TimeMatch(h, m, if showSeconds then Some(sc) else None, if is12 then " " else "",
                                  if is12 then Some(p) else None)) ==
            h + ":" + m + (if showSeconds then ":" + sc else "") + (if is12 then " " + p else "")
  {
    var tm := TimeMatch(h, m, if showSeconds then Some(sc) else None, if is12 then " " else "",
                        if is12 then Some(p) else None);
    var sec := if showSeconds then ":" + sc else "";
    var per := if is12 then " " + p else "";
    assert SecondText(tm) + tm.gap + PeriodText(tm) == sec + per;
  }

  /** The 24-hour hour of a 12-hour hour and its period. */
  lemma Hour12Period(h: int)
    requires 0 <= h < 24
    ensures var h12 := Hour12(h);
      (if PeriodOf(h) == "PM" && h12 < 12 then h12 + 12 else if PeriodOf(h) == "AM" && h12 == 12 then 0 else h12) == h
    ensures Fold24(Some(Hour12(h)), PeriodOf(h)) == Some(h)
  {
  }

  lemma DisplayHour(t: TimeOfDay, showSeconds: bool, is12: bool, asWritten: bool)
    requires t.Valid()
    ensures AllDigits(DisplayMatch(t, showSeconds, is12).hour)
    ensures TimeOnlyHour(DisplayMatch(t, showSeconds, is12), is12, asWritten) == t.hour
  {
    var tm := DisplayMatch(t, showSeconds, is12);
    Pad2Small(if is12 then Hour12(t.hour) else t.hour);
    if is12 {
      UpperPeriod(PeriodOf(t.hour));
      Hour12Period(t.hour);
    }
  }

  /** The date a displayed time is read back as: today at that hour and minute, with the seconds when
      they are shown and 0 otherwise. */
  lemma ResolveDisplay(host: Host, t: TimeOfDay, showSeconds: bool, is12: bool, asWritten: bool)
    requires t.Valid()
    ensures var t' := TimeOfDay(t.hour, t.minute, if showSeconds then t.second else 0);
      ResolveDate(host, Str(Display(t, showSeconds, is12)), is12, asWritten) == Some(Moment(host.today, MsOf(t'))) &&
      Tod(Moment(host.today, MsOf(t'))) == t'
  {
    var tm := DisplayMatch(t, showSeconds, is12);
    DisplayIsRender(t, showSeconds, is12);
    DisplayHour(t, showSeconds, is12, asWritten);
    ResolveRendered(host, tm, is12, asWritten);
    Pad2Small(t.minute);
    Pad2Small(t.second);
    var t' := TimeOfDay(t.hour, t.minute, if showSeconds then t.second else 0);
    SetHoursInRange(Now(host), t');
  }

  /** The round trip of the display string: parsing a canonical string gives it back unchanged, for the
      code as written and for the corrected reading. */
  lemma ParseDisplayRoundTrip(host: Host, t: TimeOfDay, showSeconds: bool, is12: bool)
    requires t.Valid()
    ensures ParseTimeFromValue(host, Str(Display(t, showSeconds, is12)), showSeconds, is12) == Display(t, showSeconds, is12)
    ensures ParseTimeFromValueCorrected(host, Str(Display(t, showSeconds, is12)), showSeconds, is12) ==
            Display(t, showSeconds, is12)
  {
    ResolveDisplay(host, t, showSeconds, is12, true);
    ResolveDisplay(host, t, showSeconds, is12, false);
  }

  /** Every non-empty output of parseTimeFromValue is the display of some time of day. */
  lemma ParseIsDisplay(host: Host, v: Value, showSeconds: bool, is12: bool, asWritten: bool)
    requires ShowResolved(ResolveDate(host, v, is12, asWritten), showSeconds, is12) != ""
    ensures var d := ResolveDate(host, v, is12, asWritten).value;
      d.Moment? && ShowResolved(ResolveDate(host, v, is12, asWritten), showSeconds, is12) == Display(Tod(d), showSeconds, is12)
  {
    ShownDate(ResolveDate(host, v, is12, asWritten), showSeconds, is12);
  }

  /** A non-empty reading comes from a valid date, shown as its time of day. */
  lemma ShownDate(od: Option<Date>, showSeconds: bool, is12: bool)
    requires ShowResolved(od, showSeconds, is12) != ""
    ensures od.Some? && od.value.Moment? && ShowResolved(od, showSeconds, is12) == Display(Tod(od.value), showSeconds, is12)
  {
  }

  /** Parsing is idempotent: its own output is read back unchanged. */
  lemma ParseIdempotent(host: Host, v: Value, showSeconds: bool, is12: bool)
    ensures var r := ParseTimeFromValue(host, v, showSeconds, is12);
      ParseTimeFromValue(host, Str(r), showSeconds, is12) == r
    ensures var r := ParseTimeFromValueCorrected(host, v, showSeconds, is12);
      ParseTimeFromValueCorrected(host, Str(r), showSeconds, is12) == r
  {
    var r := ParseTimeFromValue(host, v, showSeconds, is12);
    if r != "" {
      ParseIsDisplay(host, v, showSeconds, is12, true);
      ParseDisplayRoundTrip(host, Tod(ResolveDate(host, v, is12, true).value), showSeconds, is12);
    }
    var c := ParseTimeFromValueCorrected(host, v, showSeconds, is12);
    if c != "" {
      ParseIsDisplay(host, v, showSeconds, is12, false);
      ParseDisplayRoundTrip(host, Tod(ResolveDate(host, v, is12, false).value), showSeconds, is12);
    }
  }

  /** The two readings differ only on a period-less time-only string on the 12-hour clock. */
  lemma ParseCorrectionScope(host: Host, v: Value, showSeconds: bool, is12: bool)
    requires !is12 || !v.Str? || MatchTimeOnly(Trim(v.s)).None? || MatchTimeOnly(Trim(v.s)).value.period.Some?
    ensures ParseTimeFromValue(host, v, showSeconds, is12) == ParseTimeFromValueCorrected(host, v, showSeconds, is12)
  {
  }

  /** A period-less 24-hour "HH:MM" input on the 12-hour clock: as written it is shown as `Hour12(h)`
      o'clock (so 00:xx becomes noon and 13:00..23:59 become morning times); the corrected reading
      shows the time that was typed. */
  lemma PeriodlessHour(host: Host, t: TimeOfDay, showSeconds: bool)
    requires t.Valid()
    ensures ParseTimeFromValue(host, Str(Display(t, false, false)), showSeconds, true) ==
            Display(TimeOfDay(Hour12(t.hour), t.minute, 0), showSeconds, true)
    ensures ParseTimeFromValueCorrected(host, Str(Display(t, false, false)), showSeconds, true) ==
            Display(TimeOfDay(t.hour, t.minute, 0), showSeconds, true)
  {
    var tm := DisplayMatch(t, false, false);
    DisplayIsRender(t, false, false);
    Pad2Small(t.hour);
    Pad2Small(t.minute);
    ResolveRendered(host, tm, true, true);
    ResolveRendered(host, tm, true, false);
    SetHoursInRange(Now(host), TimeOfDay(Hour12(t.hour), t.minute, 0));
    SetHoursInRange(Now(host), TimeOfDay(t.hour, t.minute, 0));
  }

  /** The last two characters of a 12-hour display are its period. */
  lemma DisplayPeriod(t: TimeOfDay, showSeconds: bool)
    ensures var d := Display(t, showSeconds, true); |d| >= 2 && d[|d| - 2..] == PeriodOf(t.hour)
  {
    var d := Display(t, showSeconds, true);
    var x := Pad2(Hour12(t.hour)) + ":" + Pad2(t.minute) + (if showSeconds then ":" + Pad2(t.second) else "");
    assert d == x + (" " + PeriodOf(t.hour));
  }

  /** As written, those two displays disagree exactly for the hours 0 and 13..23. */
  lemma PeriodlessHourDiffers(t: TimeOfDay, showSeconds: bool)
    requires t.Valid()
    ensures (Display(TimeOfDay(Hour12(t.hour), t.minute, 0), showSeconds, true) !=
             Display(TimeOfDay(t.hour, t.minute, 0), showSeconds, true)) <==> (t.hour == 0 || t.hour > 12)
  {
    if t.hour == 0 || t.hour > 12 {
      DisplayPeriod(TimeOfDay(Hour12(t.hour), t.minute, 0), showSeconds);
      DisplayPeriod(TimeOfDay(t.hour, t.minute, 0), showSeconds);
      assert PeriodOf(Hour12(t.hour)) != PeriodOf(t.hour);
    } else {
      assert Hour12(t.hour) == t.hour;
    }
  }

  lemma Pad2Digits(n: int, c0: char, c1: char)
    requires 0 <= n < 100 && c0 == DigitChar(n / 10) && c1 == DigitChar(n % 10)
    ensures Pad2(n) == [c0, c1]
  {
    Pad2Small(n);
  }

  lemma DisplayExamples()
    ensures Display(TimeOfDay(13, 0, 0), false, false) == "13:00"
    ensures Display(TimeOfDay(0, 30, 0), false, false) == "00:30"
    ensures Display(TimeOfDay(1, 0, 0), false, true) == "01:00 AM"
    ensures Display(TimeOfDay(13, 0, 0), false, true) == "01:00 PM"
    ensures Display(TimeOfDay(12, 30, 0), false, true) == "12:30 PM"
    ensures Display(TimeOfDay(0, 30, 0), false, true) == "12:30 AM"
  {
    Pad2Digits(13, '1', '3');
    Pad2Digits(0, '0', '0');
    Pad2Digits(1, '0', '1');
    Pad2Digits(12, '1', '2');
    Pad2Digits(30, '3', '0');
    assert Hour12(1) == 1 && Hour12(12) == 12 && Hour12(0) == 12 && Hour12(13) == 1;
  }

  /** Concretely: "13:00" is shown as "01:00 AM" and "00:30" as "12:30 PM". */
  lemma PeriodlessExamples(host: Host)
    ensures ParseTimeFromValue(host, Str("13:00"), false, true) == "01:00 AM"
    ensures ParseTimeFromValueCorrected(host, Str("13:00"), false, true) == "01:00 PM"
    ensures ParseTimeFromValue(host, Str("00:30"), false, true) == "12:30 PM"
    ensures ParseTimeFromValueCorrected(host, Str("00:30"), false, true) == "12:30 AM"
  {
    DisplayExamples();
    PeriodlessHour(host, TimeOfDay(13, 0, 0), false);
    PeriodlessHour(host, TimeOfDay(0, 30, 0), false);
    assert Hour12(13) == 1 && Hour12(0) == 12;
  }

  /** A 12-hour display keeps its time of day when read on either clock: its period is applied to
      the hour before the hour is shown again. */
  lemma TwelveHourRead(host: Host, t: TimeOfDay, showSeconds: bool, is12: bool)
    requires t.Valid()
    ensures ParseTimeFromValue(host, Str(Display(t, showSeconds, true)), showSeconds, is12) ==
            Display(t, showSeconds, is12)
    ensures ParseTimeFromValueCorrected(host, Str(Display(t, showSeconds, true)), showSeconds, is12) ==
            Display(t, showSeconds, is12)
  {
    TwelveHourResolve(host, t, showSeconds, is12, true);
    TwelveHourResolve(host, t, showSeconds, is12, false);
    var t' := TimeOfDay(t.hour, t.minute, if showSeconds then t.second else 0);
    assert Display(t', showSeconds, is12) == Display(t, showSeconds, is12);
  }

  /** The date a 12-hour display is read as on either clock: today at the displayed time. */
  lemma TwelveHourResolve(host: Host, t: TimeOfDay, showSeconds: bool, is12: bool, asWritten: bool)
    requires t.Valid()
    ensures var t' := TimeOfDay(t.hour, t.minute, if showSeconds then t.second else 0);
      ResolveDate(host, Str(Display(t, showSeconds, true)), is12, asWritten) == Some(Moment(host.today, MsOf(t'))) &&
      Tod(Moment(host.today, MsOf(t'))) == t'
  {
    var tm := DisplayMatch(t, showSeconds, true);
    DisplayIsRender(t, showSeconds, true);
    DisplayHour(t, showSeconds, true, asWritten);
    assert TimeOnlyHour(tm, is12, asWritten) == t.hour;
    ResolveRendered(host, tm, is12, asWritten);
    Pad2Small(t.minute);
    Pad2Small(t.second);
    var t' := TimeOfDay(t.hour, t.minute, if showSeconds then t.second else 0);
    SetHoursInRange(Now(host), t');
  }

  /** Concretely: "12:00 AM" is "12:00 AM" on the 12-hour clock and "00:00" on the 24-hour clock, and
      "01:00 PM" is "13:00" there. */
  lemma ExplicitPeriodExamples(host: Host)
    ensures ParseTimeFromValue(host, Str("12:00 AM"), false, true) == "12:00 AM"
    ensures ParseTimeFromValue(host, Str("12:00 AM"), false, false) == "00:00"
    ensures ParseTimeFromValue(host, Str("01:00 PM"), false, false) == "13:00"
  {
    var midnight := TimeOfDay(0, 0, 0);
    assert Display(midnight, false, true) == "12:00 AM" by {
      Pad2Digits(0, '0', '0');
      Pad2Digits(12, '1', '2');
      assert Hour12(0) == 12;
    }
    assert Display(midnight, false, false) == "00:00" by { Pad2Digits(0, '0', '0'); }
    TwelveHourRead(host, midnight, false, true);
    TwelveHourRead(host, midnight, false, false);
    assert ParseTimeFromValue(host, Str("01:00 PM"), false, false) == "13:00" by {
      DisplayExamples();
      TwelveHourRead(host, TimeOfDay(13, 0, 0), false, false);
    }
  }

  // ---------------------------------------------------------------------------
  // Writing a display string and reading the result back

  /** The hour shown in a display. */
  function ShownHour(t: TimeOfDay, is12: bool): int {
    if is12 then Hour12(t.hour) else t.hour
  }

  /** The display without its period: "HH:MM" or "HH:MM:SS". */
  function ClockPart(t: TimeOfDay, showSeconds: bool, is12: bool): string {
    Pad2(ShownHour(t, is12)) + ":" + Pad2(t.minute) + (if showSeconds then ":" + Pad2(t.second) else "")
  }

  lemma DisplayShape(t: TimeOfDay, showSeconds: bool, is12: bool)
    requires t.Valid()
    ensures Display(t, showSeconds, is12) ==
            if is12 then ClockPart(t, showSeconds, is12) + [' '] + PeriodOf(t.hour) else ClockPart(t, showSeconds, is12)
    ensures ClockPart(t, showSeconds, is12) ==
            Pad2(ShownHour(t, is12)) + [':'] + (Pad2(t.minute) + (if showSeconds then ":" + Pad2(t.second) else ""))
    ensures showSeconds ==> Pad2(t.minute) + ":" + Pad2(t.second) == Pad2(t.minute) + [':'] + Pad2(t.second)
    ensures forall i :: 0 <= i < |ClockPart(t, showSeconds, is12)| ==>
              IsDigit(ClockPart(t, showSeconds, is12)[i]) || ClockPart(t, showSeconds, is12)[i] == ':'
  {
    ClockPartChars(t, showSeconds, is12);
    var sc := Pad2(t.second);
    TextShape(Pad2(ShownHour(t, is12)), Pad2(t.minute), if showSeconds then ":" + sc else "", PeriodOf(t.hour), is12);
    TextShape(Pad2(t.minute), sc, "", "", false);
  }

  /** How "H:M<seconds>< period>" associates. */
  lemma TextShape(h: string, m: string, sec: string, p: string, is12: bool)
    ensures h + ":" + m + sec + (if is12 then " " + p else "") ==
            if is12 then h + ":" + m + sec + [' '] + p else h + ":" + m + sec
    ensures h + ":" + m + sec == h + [':'] + (m + sec)
    ensures h + ":" + m == h + [':'] + m
  {
  }

  /** The clock part of a display is made of digits and colons. */
  lemma ClockPartChars(t: TimeOfDay, showSeconds: bool, is12: bool)
    requires t.Valid()
    ensures forall i :: 0 <= i < |ClockPart(t, showSeconds, is12)| ==>
              IsDigit(ClockPart(t, showSeconds, is12)[i]) || ClockPart(t, showSeconds, is12)[i] == ':'
  {
    var h := Pad2(ShownHour(t, is12));
    var m := Pad2(t.minute);
    var sc := Pad2(t.second);
    Pad2Small(ShownHour(t, is12));
    Pad2Small(t.minute);
    Pad2Small(t.second);
    var tail := if showSeconds then ":" + sc else "";
    assert ClockPart(t, showSeconds, is12) == h + [':'] + (m + tail);
    assert forall i :: 0 <= i < |tail| ==> IsDigit(tail[i]) || tail[i] == ':';
  }

  /** Splitting a display at its first space separates the clock part from the period. */
  lemma SplitDisplaySpace(t: TimeOfDay, showSeconds: bool, is12: bool)
    requires t.Valid()
    ensures var d := Display(t, showSeconds, is12);
      (' ' in d <==> is12) && (is12 ==> Split(d, ' ') == [ClockPart(t, showSeconds, is12), PeriodOf(t.hour)]) &&
      (!is12 ==> d == ClockPart(t, showSeconds, is12))
  {
    var d := Display(t, showSeconds, is12);
    var a := ClockPart(t, showSeconds, is12);
    DisplayShape(t, showSeconds, is12);
    assert ' ' !in a;
    if is12 {
      SplitAt(a, ' ', PeriodOf(t.hour));
      SplitWithout(PeriodOf(t.hour), ' ');
      assert d[|a|] == ' ';
    }
  }

  /** Splitting the clock part at ':' gives the two or three padded fields. */
  lemma SplitClockPart(t: TimeOfDay, showSeconds: bool, is12: bool)
    requires t.Valid()
    ensures Split(ClockPart(t, showSeconds, is12), ':') ==
            [Pad2(ShownHour(t, is12)), Pad2(t.minute)] + (if showSeconds then [Pad2(t.second)] else [])
  {
    DisplayShape(t, showSeconds, is12);
    var rest := Pad2(t.minute) + (if showSeconds then ":" + Pad2(t.second) else "");
    Pad2Small(ShownHour(t, is12));
    Pad2Small(t.minute);
    Pad2Small(t.second);
    assert ':' !in Pad2(ShownHour(t, is12)) && ':' !in Pad2(t.minute) && ':' !in Pad2(t.second);
    SplitAt(Pad2(ShownHour(t, is12)), ':', rest);
    if showSeconds {
      assert rest == Pad2(t.minute) + [':'] + Pad2(t.second);
      SplitAt(Pad2(t.minute), ':', Pad2(t.second));
      SplitWithout(Pad2(t.second), ':');
    } else {
      assert rest == Pad2(t.minute);
      SplitWithout(Pad2(t.minute), ':');
    }
  }

  /** The fields the converter reads from a display string are the displayed time (seconds 0 when
      they are not shown). */
  lemma ReadFieldsDisplay(t: TimeOfDay, showSeconds: bool, is12: bool)
    requires t.Valid()
    ensures ReadFields(Display(t, showSeconds, is12)) ==
            Fields(Some(t.hour), Some(t.minute), Some(if showSeconds then t.second else 0))
  {
    DisplayTimePeriod(t, showSeconds, is12);
    ClockPartFields(t, showSeconds, is12);
    var period := if is12 then PeriodOf(t.hour) else "";
    assert Fold24(Some(ShownHour(t, is12)), period) == Some(t.hour) by {
      if is12 { Hour12Period(t.hour); }
    }
  }

  /** The converter's split of a display at its first space: the clock part, then the period. */
  lemma DisplayTimePeriod(t: TimeOfDay, showSeconds: bool, is12: bool)
    requires t.Valid()
    ensures var d := Display(t, showSeconds, is12);
      (if ' ' in d then Split(d, ' ')[0] else d) == ClockPart(t, showSeconds, is12) &&
      (if ' ' in d then ItemOr(Split(d, ' '), 1) else "") == (if is12 then PeriodOf(t.hour) else "")
  {
    SplitDisplaySpace(t, showSeconds, is12);
  }

  /** The converter's split of the clock part at its colons reads the shown hour, minute and second. */
  lemma ClockPartFields(t: TimeOfDay, showSeconds: bool, is12: bool)
    requires t.Valid()
    ensures var parts := Split(ClockPart(t, showSeconds, is12), ':');
      |parts| == (if showSeconds then 3 else 2) &&
      ParseInt(parts[0]) == Some(ShownHour(t, is12)) && ParseInt(parts[1]) == Some(t.minute) &&
      (showSeconds ==> ParseInt(parts[2]) == Some(t.second))
  {
    SplitClockPart(t, showSeconds, is12);
    ParseIntPad2(ShownHour(t, is12));
    ParseIntPad2(t.minute);
    ParseIntPad2(t.second);
  }

  /** The date a display string is converted to: today (or the original date) at the displayed time. */
  lemma EncodeAt(host: Host, base: Date, t: TimeOfDay, showSeconds: bool)
    requires base.Moment? && t.Valid()
    ensures var t' := TimeOfDay(t.hour, t.minute, if showSeconds then t.second else 0);
      SetHours(base, Some(t.hour), Some(t.minute), Some(if showSeconds then t.second else 0)) == Moment(base.day, MsOf(t')) &&
      Tod(Moment(base.day, MsOf(t'))) == t'
  {
    SetHoursInRange(base, TimeOfDay(t.hour, t.minute, if showSeconds then t.second else 0));
  }

  /** Date-object round trip: a display string written as a `Date` (on any original that is not an
      invalid date) is parsed back to the same string, and the date keeps the original's day (today's
      when the original is not a `Date`). */
  lemma DateObjectRoundTrip(host: Host, t: TimeOfDay, showSeconds: bool, is12: bool, orig: Value)
    requires t.Valid() && !(orig.DateVal? && orig.date.InvalidDate?)
    ensures var out := ConvertTimeToReturnType(host, Display(t, showSeconds, is12), DateObject, orig);
      out.DateVal? && ParseTimeFromValue(host, out, showSeconds, is12) == Display(t, showSeconds, is12)
    ensures var out := ConvertTimeToReturnType(host, Display(t, showSeconds, is12), DateObject, orig);
      out.DateVal? && out.date.Moment? && out.date.day == (if orig.DateVal? then orig.date.day else host.today)
  {
    var base := if orig.DateVal? then orig.date else Now(host);
    var t' := TimeOfDay(t.hour, t.minute, if showSeconds then t.second else 0);
    var sec := if showSeconds then t.second else 0;
    EncodeDisplay(host, t, showSeconds, is12, DateObject, orig);
    EncodeAt(host, base, t, showSeconds);
    var out := ConvertTimeToReturnType(host, Display(t, showSeconds, is12), DateObject, orig);
    assert out == DateVal(SetHours(base, Some(t.hour), Some(t.minute), Some(sec)));
    ShowMoment(host, base.day, t, showSeconds, is12);
  }

  /** A display string is encoded with the fields it shows. */
  lemma EncodeDisplay(host: Host, t: TimeOfDay, showSeconds: bool, is12: bool, rt: ReturnType, orig: Value)
    requires t.Valid()
    ensures ConvertTimeToReturnType(host, Display(t, showSeconds, is12), rt, orig) ==
            Encode(host, rt, Display(t, showSeconds, is12), Some(t.hour), Some(t.minute),
                   Some(if showSeconds then t.second else 0), orig)
  {
    ReadFieldsDisplay(t, showSeconds, is12);
    Pad2Small(if is12 then Hour12(t.hour) else t.hour);
    assert Display(t, showSeconds, is12) != "";
  }

  /** A date at a displayed time (seconds dropped when they are not shown) reads back as the display. */
  lemma ShowMoment(host: Host, day: int, t: TimeOfDay, showSeconds: bool, is12: bool)
    requires t.Valid()
    ensures var t' := TimeOfDay(t.hour, t.minute, if showSeconds then t.second else 0);
      Tod(Moment(day, MsOf(t'))) == t' ==>
      ParseTimeFromValue(host, DateVal(Moment(day, MsOf(t'))), showSeconds, is12) == Display(t, showSeconds, is12)
  {
  }

  /** Unix-milliseconds round trip, when `new Date(ms)` inverts `getTime()` and the written number does
      not have the ten digits that are read as seconds. */
  lemma UnixMillisecondsRoundTrip(host: Host, t: TimeOfDay, showSeconds: bool, is12: bool, orig: Value)
    requires t.Valid() && EpochRoundTrips(host)
    requires var out := ConvertTimeToReturnType(host, Display(t, showSeconds, is12), UnixMilliseconds, orig);
      !(out.Num? && |NumberText(out.n)| == 10)
    ensures var out := ConvertTimeToReturnType(host, Display(t, showSeconds, is12), UnixMilliseconds, orig);
      out.Num? && ParseTimeFromValue(host, out, showSeconds, is12) == Display(t, showSeconds, is12)
  {
    ReadFieldsDisplay(t, showSeconds, is12);
    EncodeAt(host, Now(host), t, showSeconds);
  }

  /** Unix-seconds round trip, when in addition the time zone offset is whole seconds and the written
      number has ten digits. */
  lemma UnixSecondsRoundTrip(host: Host, t: TimeOfDay, showSeconds: bool, is12: bool, orig: Value)
    requires t.Valid() && EpochRoundTrips(host) && WholeSecondOffset(host)
    requires var out := ConvertTimeToReturnType(host, Display(t, showSeconds, is12), UnixSeconds, orig);
      out.Num? ==> |NumberText(out.n)| == 10
    ensures var out := ConvertTimeToReturnType(host, Display(t, showSeconds, is12), UnixSeconds, orig);
      out.Num? && ParseTimeFromValue(host, out, showSeconds, is12) == Display(t, showSeconds, is12)
  {
    ReadFieldsDisplay(t, showSeconds, is12);
    EncodeAt(host, Now(host), t, showSeconds);
    var t' := TimeOfDay(t.hour, t.minute, if showSeconds then t.second else 0);
    var d: Date := Moment(host.today, MsOf(t'));
    MsOfWholeSeconds(t');
    assert host.epochMs(d) % MsPerSecond == d.msOfDay % MsPerSecond;
    WholeSecondsDivide(host.epochMs(d));
  }

  lemma MsOfWholeSeconds(t: TimeOfDay)
    ensures MsOf(t) % MsPerSecond == 0
  {
    var secs := t.hour * 3600 + t.minute * 60 + t.second;
    assert MsOf(t) == secs * MsPerSecond;
    DivMixed(secs, MsPerSecond, 0);
  }

  lemma WholeSecondsDivide(e: int)
    requires e % MsPerSecond == 0
    ensures e / MsPerSecond * MsPerSecond == e
  {
  }

  /** The host's `toISOString` output is read back by its date parser and is not a time-only string. */
  ghost predicate IsoReadsBack(host: Host) {
    forall d: Date | d.Moment? ::
      host.parse(host.iso(d)) == d && Trim(host.iso(d)) != "" && MatchTimeOnly(Trim(host.iso(d))).None?
  }

  /** A string that is not blank and not a time-only string goes to the host's date parser. */
  lemma ResolveUnmatched(host: Host, s: string, is12: bool, asWritten: bool)
    requires Trim(s) != "" && MatchTimeOnly(Trim(s)).None?
    ensures ResolveDate(host, Str(s), is12, asWritten) == Some(host.parse(s))
  {
  }

  /** ISO round trip, for any original value: on a valid date the ISO text reads back, as a date on
      the ISO original's day or on today; when the original's date is invalid the converter falls back
      to the display string itself. */
  lemma IsoRoundTrip(host: Host, t: TimeOfDay, showSeconds: bool, is12: bool, orig: Value)
    requires t.Valid() && IsoReadsBack(host)
    ensures var out := ConvertTimeToReturnType(host, Display(t, showSeconds, is12), IsoString, orig);
      out.Str? && ParseTimeFromValue(host, out, showSeconds, is12) == Display(t, showSeconds, is12)
    ensures var out := ConvertTimeToReturnType(host, Display(t, showSeconds, is12), IsoString, orig);
      orig.Str? && 'T' in orig.s && host.parse(orig.s).Moment? ==>
        out.Str? && host.parse(out.s).Moment? && host.parse(out.s).day == host.parse(orig.s).day
    ensures var out := ConvertTimeToReturnType(host, Display(t, showSeconds, is12), IsoString, orig);
      !(orig.Str? && 'T' in orig.s) ==> out.Str? && host.parse(out.s).Moment? && host.parse(out.s).day == host.today
  {
    ReadFieldsDisplay(t, showSeconds, is12);
    var sec := if showSeconds then t.second else 0;
    var base := if orig.Str? && 'T' in orig.s then host.parse(orig.s) else Now(host);
    var d := SetHours(base, Some(t.hour), Some(t.minute), Some(sec));
    var out := ConvertTimeToReturnType(host, Display(t, showSeconds, is12), IsoString, orig);
    if base.Moment? {
      EncodeAt(host, base, t, showSeconds);
      assert out == Str(host.iso(d));
      IsoReadOnDate(host, base, t, showSeconds, is12);
    } else {
      ParseDisplayRoundTrip(host, t, showSeconds, is12);
      assert out == Str(Display(t, showSeconds, is12));
    }
  }

  /** The ISO text of the time set on a valid date reads back as the display string. */
  lemma IsoReadOnDate(host: Host, base: Date, t: TimeOfDay, showSeconds: bool, is12: bool)
    requires base.Moment? && t.Valid() && IsoReadsBack(host)
    ensures var d := SetHours(base, Some(t.hour), Some(t.minute), Some(if showSeconds then t.second else 0));
      ParseTimeFromValue(host, Str(host.iso(d)), showSeconds, is12) == Display(t, showSeconds, is12)
  {
    EncodeAt(host, base, t, showSeconds);
    var d := SetHours(base, Some(t.hour), Some(t.minute), Some(if showSeconds then t.second else 0));
    assert host.parse(host.iso(d)) == d && Trim(host.iso(d)) != "" && MatchTimeOnly(Trim(host.iso(d))).None?;
    ResolveUnmatched(host, host.iso(d), is12, true);
  }

  /** The date text the datetime encoding puts before the display: the original's text up to its first
      space when the original is a string with a '/', else today's `MM/DD/YYYY`. */
  function DatePart(host: Host, orig: Value): string {
    if orig.Str? && '/' in orig.s then Split(orig.s, ' ')[0] else CalendarText(host, Now(host))
  }

  /** The host's date parser reads "<date part> <display>" as a valid date at the displayed time of day
      (seconds 0 when they are not shown). */
  ghost predicate ReadsDatetimeAt(host: Host, datePart: string, t: TimeOfDay, showSeconds: bool, is12: bool) {
    var d := host.parse(datePart + " " + Display(t, showSeconds, is12));
    d.Moment? && Tod(d) == TimeOfDay(t.hour, t.minute, if showSeconds then t.second else 0)
  }

  /** Today's date text is `MM/DD/YYYY`, so it contains a '/'. */
  lemma CalendarSlash(host: Host, d: Date)
    ensures '/' in CalendarText(host, d)
  {
    if d.Moment? {
      var c := host.calendar(d.day);
      assert CalendarText(host, d)[|Pad2(c.month)|] == '/';
    } else {
      assert CalendarText(host, d)[3] == '/';
    }
  }

  /** `trim` removes only whitespace, so a '/' survives it. */
  lemma SlashSurvivesTrim(s: string)
    requires '/' in s
    ensures '/' in Trim(s)
  {
    var r := TrimStart(s);
    var i :| 0 <= i < |s| && s[i] == '/';
    assert !IsSpace(s[i]);
    assert r[i - (|s| - |r|)] == '/';
    var r' := TrimEnd(r);
    var j :| 0 <= j < |r| && r[j] == '/';
    assert !IsSpace(r[j]);
    assert r'[j] == '/';
  }

  /** A time-only string has no '/': it is made of digits, ':', one whitespace character and AM/PM. */
  lemma NoSlashInTimeOnly(x: string)
    requires MatchTimeOnly(x).Some?
    ensures '/' !in x
  {
    MatchRendersInput(x);
    RenderNoSlash(MatchTimeOnly(x).value);
  }

  lemma RenderNoSlash(tm: TimeMatch)
    requires WellFormedMatch(tm)
    ensures '/' !in RenderMatch(tm)
  {
    DigitsNoSlash(tm.hour);
    DigitsNoSlash(tm.minute);
    assert '/' !in SecondText(tm) by {
      if tm.second.Some? { DigitsNoSlash(tm.second.value); }
    }
    assert '/' !in tm.gap by {
      assert tm.gap == "" || tm.gap == [tm.gap[0]];
    }
    assert '/' !in PeriodText(tm) by {
      if tm.period.Some? { AmPmNoSlash(tm.period.value); }
    }
  }

  lemma DigitsNoSlash(s: string)
    requires AllDigits(s)
    ensures '/' !in s
  {
    forall i | 0 <= i < |s| ensures s[i] != '/' { assert IsDigit(s[i]); }
  }

  lemma AmPmNoSlash(p: string)
    requires IsAmPm(p)
    ensures '/' !in p
  {
    assert p == [p[0], p[1]];
  }

  /** Datetime-string round trip: the output is the date part, a space and the display. Given a date
      part with a '/' and a host parser that reads such text at its time, it parses back to the display. */
  lemma DatetimeStringRoundTrip(host: Host, t: TimeOfDay, showSeconds: bool, is12: bool, orig: Value)
    requires t.Valid() && ReadsDatetimeAt(host, DatePart(host, orig), t, showSeconds, is12)
    requires orig.Str? && '/' in orig.s ==> '/' in Split(orig.s, ' ')[0]
    ensures ConvertTimeToReturnType(host, Display(t, showSeconds, is12), DatetimeString, orig) ==
            Str(DatePart(host, orig) + " " + Display(t, showSeconds, is12))
    ensures ParseTimeFromValue(host, ConvertTimeToReturnType(host, Display(t, showSeconds, is12), DatetimeString, orig),
                               showSeconds, is12) == Display(t, showSeconds, is12)
  {
    DatetimeEncode(host, t, showSeconds, is12, orig);
    if !(orig.Str? && '/' in orig.s) { CalendarSlash(host, Now(host)); }
    DatetimeRead(host, DatePart(host, orig), t, showSeconds, is12);
  }

  /** The datetime encoding writes the date part, a space and the display. */
  lemma DatetimeEncode(host: Host, t: TimeOfDay, showSeconds: bool, is12: bool, orig: Value)
    requires t.Valid()
    ensures ConvertTimeToReturnType(host, Display(t, showSeconds, is12), DatetimeString, orig) ==
            Str(DatePart(host, orig) + " " + Display(t, showSeconds, is12))
  {
    EncodeDisplay(host, t, showSeconds, is12, DatetimeString, orig);
    EncodeAt(host, Now(host), t, showSeconds);
  }

  /** A date part with a '/' keeps "<date part> <display>" away from the time-only pattern, so the
      host's parser reads it. */
  lemma DatetimeRead(host: Host, part: string, t: TimeOfDay, showSeconds: bool, is12: bool)
    requires t.Valid() && '/' in part && ReadsDatetimeAt(host, part, t, showSeconds, is12)
    ensures ParseTimeFromValue(host, Str(part + " " + Display(t, showSeconds, is12)), showSeconds, is12) ==
            Display(t, showSeconds, is12)
  {
    var text := part + " " + Display(t, showSeconds, is12);
    assert '/' in text by { var i :| 0 <= i < |part| && part[i] == '/'; assert text[i] == '/'; }
    SlashNotTimeOnly(text);
    ParsedAt(host, text, t, showSeconds, is12);
  }

  /** Text with a '/' is neither blank nor time-only. */
  lemma SlashNotTimeOnly(text: string)
    requires '/' in text
    ensures Trim(text) != "" && MatchTimeOnly(Trim(text)).None?
  {
    SlashSurvivesTrim(text);
    if MatchTimeOnly(Trim(text)).Some? { NoSlashInTimeOnly(Trim(text)); }
  }

  /** Text the host's parser reads at a displayed time, and that is not time-only, shows as that display. */
  lemma ParsedAt(host: Host, text: string, t: TimeOfDay, showSeconds: bool, is12: bool)
    requires t.Valid() && Trim(text) != "" && MatchTimeOnly(Trim(text)).None?
    requires host.parse(text).Moment? && Tod(host.parse(text)) == TimeOfDay(t.hour, t.minute, if showSeconds then t.second else 0)
    ensures ParseTimeFromValue(host, Str(text), showSeconds, is12) == Display(t, showSeconds, is12)
  {
    ResolveUnmatched(host, text, is12, true);
  }

  /** The unix encodings ignore the original value: the time is always set on today's date. */
  lemma UnixIgnoresOriginal(host: Host, timeString: string, orig1: Value, orig2: Value)
    ensures ConvertTimeToReturnType(host, timeString, UnixSeconds, orig1) ==
            ConvertTimeToReturnType(host, timeString, UnixSeconds, orig2)
    ensures ConvertTimeToReturnType(host, timeString, UnixMilliseconds, orig1) ==
            ConvertTimeToReturnType(host, timeString, UnixMilliseconds, orig2)
  {
  }

  lemma SplitTwo(a: string, c: char, b: string)
    requires NoSep(a, IsTimeSep) && NoSep(b, IsTimeSep) && IsTimeSep(c)
    ensures SplitWhere(a + [c] + b, IsTimeSep) == [a, b]
  {
    SplitCons(a, c, b, IsTimeSep);
    SplitNoSep(b, IsTimeSep);
  }

  lemma Assoc(a: string, b: string, c: string, d: string, e: string)
    ensures a + b + c + d + e == a + b + (c + d + e)
  {
  }

  lemma PiecesThree(a: string, c: char, b: string, d: char, e: string)
    requires NoSep(a, IsTimeSep) && NoSep(b, IsTimeSep) && NoSep(e, IsTimeSep) && IsTimeSep(c) && IsTimeSep(d)
    ensures SplitWhere(a + [c] + (b + [d] + e), IsTimeSep) == [a, b, e]
  {
    SplitCons(a, c, b + [d] + e, IsTimeSep);
    SplitTwo(b, d, e);
  }

  /** The pieces of "H:M[:S][ P]" between ':' and whitespace, for fields without separators. */
  lemma FieldPieces(h: string, m: string, sc: string, p: string, showSeconds: bool, is12: bool)
    requires NoSep(h, IsTimeSep) && NoSep(m, IsTimeSep) && NoSep(sc, IsTimeSep) && NoSep(p, IsTimeSep)
    ensures SplitWhere(h + ":" + m + (if showSeconds then ":" + sc else "") + (if is12 then " " + p else ""), IsTimeSep) ==
            [h, m] + (if showSeconds then [sc] else []) + (if is12 then [p] else [])
  {
    if showSeconds && is12 {
      PiecesHmsp(h, m, sc, p);
    } else if showSeconds {
      PiecesHms(h, m, sc);
    } else if is12 {
      PiecesHmp(h, m, p);
    } else {
      PiecesHm(h, m);
    }
  }

  // The four shapes of FieldPieces, written as its ensures reads once the switches are known.

  lemma PiecesHmsp(h: string, m: string, sc: string, p: string)
    requires NoSep(h, IsTimeSep) && NoSep(m, IsTimeSep) && NoSep(sc, IsTimeSep) && NoSep(p, IsTimeSep)
    ensures SplitWhere(h + ":" + m + (":" + sc) + (" " + p), IsTimeSep) == [h, m] + [sc] + [p]
  {
    assert h + ":" + m + (":" + sc) + (" " + p) == h + ":" + (m + (":" + sc) + (" " + p));
    PiecesFour(h, m, sc, p);
  }

  lemma PiecesHms(h: string, m: string, sc: string)
    requires NoSep(h, IsTimeSep) && NoSep(m, IsTimeSep) && NoSep(sc, IsTimeSep)
    ensures SplitWhere(h + ":" + m + (":" + sc) + "", IsTimeSep) == [h, m] + [sc] + []
  {
    assert h + ":" + m + (":" + sc) + "" == h + [':'] + (m + [':'] + sc);
    PiecesThree(h, ':', m, ':', sc);
  }

  lemma PiecesHmp(h: string, m: string, p: string)
    requires NoSep(h, IsTimeSep) && NoSep(m, IsTimeSep) && NoSep(p, IsTimeSep)
    ensures SplitWhere(h + ":" + m + "" + (" " + p), IsTimeSep) == [h, m] + [] + [p]
  {
    assert h + ":" + m + "" + (" " + p) == h + [':'] + (m + [' '] + p);
    PiecesThree(h, ':', m, ' ', p);
  }

  lemma PiecesHm(h: string, m: string)
    requires NoSep(h, IsTimeSep) && NoSep(m, IsTimeSep)
    ensures SplitWhere(h + ":" + m + "" + "", IsTimeSep) == [h, m] + [] + []
  {
    assert h + ":" + m + "" + "" == h + [':'] + m;
    SplitTwo(h, ':', m);
  }

  lemma PiecesFour(h: string, m: string, sc: string, p: string)
    requires NoSep(h, IsTimeSep) && NoSep(m, IsTimeSep) && NoSep(sc, IsTimeSep) && NoSep(p, IsTimeSep)
    ensures SplitWhere(h + ":" + (m + (":" + sc) + (" " + p)), IsTimeSep) == [h, m, sc, p]
  {
    assert m + (":" + sc) + (" " + p) == m + [':'] + (sc + [' '] + p);
    SplitCons(h, ':', m + [':'] + (sc + [' '] + p), IsTimeSep);
    PiecesThree(m, ':', sc, ' ', p);
  }

  lemma DigitsNoSep(s: string)
    requires AllDigits(s)
    ensures NoSep(s, IsTimeSep)
  {
  }

  /** The pieces of a display string between ':' and whitespace. */
  lemma DisplayPieces(t: TimeOfDay, showSeconds: bool, is12: bool)
    requires t.Valid()
    ensures SplitWhere(Display(t, showSeconds, is12), IsTimeSep) ==
            [Pad2(ShownHour(t, is12)), Pad2(t.minute)] + (if showSeconds then [Pad2(t.second)] else []) +
            (if is12 then [PeriodOf(t.hour)] else [])
  {
    Pad2Shape(ShownHour(t, is12));
    Pad2Shape(t.minute);
    Pad2Shape(t.second);
    DigitsNoSep(Pad2(ShownHour(t, is12)));
    DigitsNoSep(Pad2(t.minute));
    DigitsNoSep(Pad2(t.second));
    assert NoSep(PeriodOf(t.hour), IsTimeSep);
    FieldPieces(Pad2(ShownHour(t, is12)), Pad2(t.minute), Pad2(t.second), PeriodOf(t.hour), showSeconds, is12);
  }

  /** getTimes splits a display string into its displayed fields. */
  lemma GetTimesDisplay(t: TimeOfDay, showSeconds: bool, is12: bool)
    requires t.Valid()
    ensures GetTimes(Display(t, showSeconds, is12), showSeconds) ==
            Parts(Pad2(ShownHour(t, is12)), Pad2(t.minute), if showSeconds then Pad2(t.second) else "",
                  if is12 then PeriodOf(t.hour) else "")
  {
    DisplayPieces(t, showSeconds, is12);
    if is12 { UpperPeriod(PeriodOf(t.hour)); }
    assert ToUpper("") == "";
  }

  // ---------------------------------------------------------------------------
  // The clock's codec

  /** The clock's time string is the rendering of a match with a period. */
  lemma ClockTextIsRender(hour: int, minute: int, period: string)
    requires 0 <= hour < 100 && 0 <= minute < 100 && (period == "AM" || period == "PM")
    ensures var tm := TimeMatch(Pad2(hour), Pad2(minute), None, " ", Some(period));
      WellFormedMatch(tm) && Trimmed(tm) && RenderMatch(tm) == ClockText(hour, minute, period)
  {
    Pad2Small(hour);
    Pad2Small(minute);
    UpperPeriod(period);
  }

  /** Time-string round trip of the clock: the fields written are the fields read. */
  lemma ClockTimeStringRoundTrip(host: Host, hour: int, minute: int, period: string, orig: Value)
    requires 0 <= hour < 100 && 0 <= minute < 100 && (period == "AM" || period == "PM")
    ensures var out := ConvertClockTimeToReturnType(host, hour, minute, period, TimeString, orig);
      ParseClockTimeFromValue(host, out) == ClockTime(hour, minute, period) &&
      ParseClockTimeFromValueCorrected(host, out) == ClockTime(hour, minute, period)
  {
    var tm := TimeMatch(Pad2(hour), Pad2(minute), None, " ", Some(period));
    ClockTextIsRender(hour, minute, period);
    ClockRendered(host, tm, true);
    ClockRendered(host, tm, false);
    Pad2Small(hour);
    Pad2Small(minute);
    UpperPeriod(period);
  }

  /** Date-object round trip of the clock, for a time on the 12-hour dial. */
  lemma ClockDateObjectRoundTrip(host: Host, hour: int, minute: int, period: string, orig: Value)
    requires 1 <= hour <= 12 && 0 <= minute < 60 && (period == "AM" || period == "PM")
    requires !(orig.DateVal? && orig.date.InvalidDate?)
    ensures var out := ConvertClockTimeToReturnType(host, hour, minute, period, DateObject, orig);
      out.DateVal? && ParseClockTimeFromValue(host, out) == ClockTime(hour, minute, period)
  {
    var h24 := Clock24(hour, period);
    var base := if orig.DateVal? then orig.date else Now(host);
    var t := TimeOfDay(h24, minute, 0);
    ClockDateEncode(host, hour, minute, period, orig);
    assert ClockOfDate(Moment(base.day, MsOf(t))) == ClockTime(hour, minute, period) by {
      Clock24Inverse(hour, period);
    }
  }

  /** The 24-hour hour `convertClockTimeToReturnType` computes from the clock's hour and period. */
  function Clock24(hour: int, period: string): int {
    if period == "PM" && hour != 12 then hour + 12 else if period == "AM" && hour == 12 then 0 else hour
  }

  /** On the dial, the 24-hour hour is in range and gives back the clock's hour and period. */
  lemma Clock24Inverse(hour: int, period: string)
    requires 1 <= hour <= 12 && (period == "AM" || period == "PM")
    ensures 0 <= Clock24(hour, period) < 24
    ensures Hour12(Clock24(hour, period)) == hour && PeriodOf(Clock24(hour, period)) == period
  {
  }

  /** A clock time written as a `Date` is the original's day (or today) at that time. */
  lemma ClockDateEncode(host: Host, hour: int, minute: int, period: string, orig: Value)
    requires 1 <= hour <= 12 && 0 <= minute < 60 && (period == "AM" || period == "PM")
    requires !(orig.DateVal? && orig.date.InvalidDate?)
    ensures var base := if orig.DateVal? then orig.date else Now(host);
      var t := TimeOfDay(Clock24(hour, period), minute, 0);
      ConvertClockTimeToReturnType(host, hour, minute, period, DateObject, orig) == DateVal(Moment(base.day, MsOf(t))) &&
      Tod(Moment(base.day, MsOf(t))) == t
  {
    var base := if orig.DateVal? then orig.date else Now(host);
    Clock24Inverse(hour, period);
    SetHoursInRange(base, TimeOfDay(Clock24(hour, period), minute, 0));
  }

  /** A period-less 24-hour input to the clock: as written every such time is put in the morning, so
      12:00..23:59 lose their PM; the corrected reading agrees with the dial position of that time. */
  lemma ClockPeriodless(host: Host, t: TimeOfDay, showSeconds: bool)
    requires t.Valid()
    ensures ParseClockTimeFromValue(host, Str(Display(t, showSeconds, false))) == ClockTime(Hour12(t.hour), t.minute, "AM")
    ensures ParseClockTimeFromValueCorrected(host, Str(Display(t, showSeconds, false))) ==
            ClockTime(Hour12(t.hour), t.minute, PeriodOf(t.hour))
    ensures ParseClockTimeFromValueCorrected(host, Str(Display(t, showSeconds, false))) ==
            ClockOfDate(Moment(host.today, MsOf(t)))
  {
    var tm := DisplayMatch(t, showSeconds, false);
    DisplayIsRender(t, showSeconds, false);
    ClockRendered(host, tm, true);
    ClockRendered(host, tm, false);
    Pad2Small(t.hour);
    Pad2Small(t.minute);
    assert DecValue(tm.hour) == t.hour && DecValue(tm.minute) == t.minute;
    Hour12Fold(t.hour);
    SetHoursInRange(Now(host), t);
  }

  lemma Hour12Fold(h: int)
    requires 0 <= h < 24
    ensures (if h == 0 then 12 else if h > 12 then h - 12 else h) == Hour12(h)
  {
  }

  /** Concretely: "13:00" gives 1:00 AM and "12:00" gives 12:00 AM (midnight). */
  lemma ClockPeriodlessExamples(host: Host)
    ensures ParseClockTimeFromValue(host, Str("13:00")) == ClockTime(1, 0, "AM")
    ensures ParseClockTimeFromValueCorrected(host, Str("13:00")) == ClockTime(1, 0, "PM")
    ensures ParseClockTimeFromValue(host, Str("12:00")) == ClockTime(12, 0, "AM")
    ensures ParseClockTimeFromValueCorrected(host, Str("12:00")) == ClockTime(12, 0, "PM")
  {
    DisplayExamples();
    Pad2Digits(12, '1', '2');
    Pad2Digits(0, '0', '0');
    assert Display(TimeOfDay(12, 0, 0), false, false) == "12:00";
    ClockPeriodless(host, TimeOfDay(13, 0, 0), false);
    ClockPeriodless(host, TimeOfDay(12, 0, 0), false);
  }
}
