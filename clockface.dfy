/** The analog clock: tick labels, snapping a click's angle to an hour or a minute, the needle's
    rotation and the state the clock's handlers update. Angles are whole degrees. */
module ClockFace {
  import opened JsText
  import opened JsDate
  import opened Codec
  import opened Callbacks

  // ---------------------------------------------------------------------------
  // Arithmetic as JavaScript does it

  /** `a % b` in JavaScript: the remainder takes the sign of the dividend. */
  function JsRem(a: int, b: int): int
    requires b > 0
  {
    if a >= 0 then a % b else -((-a) % b)
  }

  // ---------------------------------------------------------------------------
  // The needle's rotation

  /** `getShortestAngle` as written: `from + ((to - from + 180 + 360) % 360 - 180)` with the
      truncating remainder. */
  function GetShortestAngle(from: int, to: int): (r: int)
    ensures (r - to) % 360 == 0
  {
    from + (JsRem(to - from + 180 + 360, 360) - 180)
  }

  /** Once the remainder's operand is not negative, the needle turns at most half a turn. */
  lemma GetShortestAngleBounded(from: int, to: int)
    requires to - from + 540 >= 0
    ensures -180 <= GetShortestAngle(from, to) - from < 180
  {
  }

  /** After one and a half turns clockwise the operand is negative and the needle swings the long
      way round: from 630 degrees to the 2 o'clock mark (60 degrees) it turns back 210 degrees. */
  lemma GetShortestAngleOvershoots()
    ensures GetShortestAngle(630, 60) == 420
    ensures 630 - GetShortestAngle(630, 60) == 210
  {
  }

  /** Across 12 o'clock the needle takes the short way in both directions: from 350 to the 10-degree
      mark it moves forward to 370, from 10 to the 350-degree mark back to -10. */
  lemma GetShortestAngleExamples()
    ensures GetShortestAngle(350, 10) == 370
    ensures GetShortestAngle(10, 350) == -10
  {
  }

  /** The angle 630 is reached by clicking 3, 6, 9, 12, 3, 6 and 9 o'clock from the start. */
  lemma NeedleReaches630()
    ensures GetShortestAngle(GetShortestAngle(GetShortestAngle(GetShortestAngle(GetShortestAngle(
              GetShortestAngle(GetShortestAngle(0, 90), 180), 270), 0), 90), 180), 270) == 630
  {
    assert GetShortestAngle(0, 90) == 90;
    assert GetShortestAngle(90, 180) == 180;
    assert GetShortestAngle(180, 270) == 270;
    assert GetShortestAngle(270, 0) == 360;
    assert GetShortestAngle(360, 90) == 450;
    assert GetShortestAngle(450, 180) == 540;
  }

  /** The shortest rotation with the remainder taken as the mathematical modulus: the needle always
      ends on the target mark and turns at most half a turn. */
  function ShortestAngle(from: int, to: int): (r: int)
    ensures (r - to) % 360 == 0
    ensures -180 <= r - from < 180
  {
    from + ((to - from + 180) % 360 - 180)
  }

  /** Those two properties determine the shortest rotation. */
  lemma ShortestAngleUnique(from: int, to: int, x: int)
    requires (x - to) % 360 == 0 && -180 <= x - from < 180
    ensures x == ShortestAngle(from, to)
  {
    var r := ShortestAngle(from, to);
    SameResidue(x, r, to);
    var k := (x - r) / 360;
    assert x - r == 360 * k;
    assert -360 < x - r < 360;
  }

  lemma SameResidue(x: int, r: int, to: int)
    requires (x - to) % 360 == 0 && (r - to) % 360 == 0
    ensures (x - r) % 360 == 0
  {
    var a, b := (x - to) / 360, (r - to) / 360;
    assert x - to == 360 * a && r - to == 360 * b;
    assert x - r == 360 * (a - b);
  }

  /** The code as written agrees with the shortest rotation whenever its remainder's operand is not
      negative, in particular while the needle has not passed one and a half turns. */
  lemma ShortestAgrees(from: int, to: int)
    requires to - from + 540 >= 0
    ensures GetShortestAngle(from, to) == ShortestAngle(from, to)
  {
    GetShortestAngleBounded(from, to);
    ShortestAngleUnique(from, to, GetShortestAngle(from, to));
  }

  // ---------------------------------------------------------------------------
  // Tick labels

  /** `getTime(t, "hour")`: `t % 12 || 12`. */
  function HourLabel(t: int): (r: int)
    ensures 1 <= t <= 12 ==> r == t
    ensures t >= 0 ==> 1 <= r <= 12 && (r - t) % 12 == 0
  {
    if JsRem(t, 12) == 0 then 12 else JsRem(t, 12)
  }

  /** `getTime(t, "minute")`: five times the tick, with a leading zero below 10 and 60 shown as "00". */
  function MinuteLabel(t: int): (r: string)
    ensures 0 <= t ==> |r| >= 2 && AllDigits(r)
  {
    var newTime := t * 5;
    if newTime < 10 then "0" + NumberText(newTime)
    else if newTime == 60 then "00"
    else NumberText(newTime)
  }

  /** The twelve minute ticks read "05", "10", ..., "55", "00": the two-digit minute of each mark. */
  lemma MinuteLabels(t: int)
    requires 1 <= t <= 12
    ensures MinuteLabel(t) == Pad2((5 * t) % 60)
  {
    var n := 5 * t;
    if 10 <= n < 60 {
      NatTextLength(n, 1);
      NatTextLength(n, 2);
      assert Pow10(1) == 10 && Pow10(2) == 100;
      assert |NumberText(n)| == 2;
    }
  }

  // ---------------------------------------------------------------------------
  // Snapping a click

  /** The click's angle from `Math.atan2` (in -180..180, 0 pointing right), turned so that 0 is
      12 o'clock: `(angle + 90 + 360) % 360`. */
  function ClockAngle(raw: int): (a: int)
    requires -180 <= raw <= 180
    ensures 0 <= a < 360 && (a - raw - 90) % 360 == 0
  {
    JsRem(raw + 90 + 360, 360)
  }

  /** `Math.round(a / 30) || 12`: the nearest hour mark, 12 for the top. */
  function HourOfAngle(a: int): (h: int)
    requires 0 <= a < 360
    ensures 1 <= h <= 12
    ensures var d := a - (h % 12) * 30; -15 <= d <= 15 || -15 <= d - 360 <= 15
  {
    var n := (a + 15) / 30;
    if n == 0 then 12 else n
  }

  /** `Math.round(a / 6) % 60`: the nearest minute mark, 0 for the top. */
  function MinuteOfAngle(a: int): (m: int)
    requires 0 <= a < 360
    ensures 0 <= m < 60
    ensures var d := a - m * 6; -3 <= d <= 3 || -3 <= d - 360 <= 3
  {
    JsRem((a + 3) / 6, 60)
  }

  /** The angle of the needle for a mode: the hour's mark `(hour % 12) * 30` or the minute's mark
      `(minute * 6) % 360`. */
  datatype Mode = HourMode | MinuteMode

  function NeedleTarget(mode: Mode, hour: int, minute: int): (r: int)
    ensures mode.HourMode? && 0 <= hour <= 12 ==> r == (hour % 12) * 30 && 0 <= r <= 330
    ensures mode.MinuteMode? && 0 <= minute < 60 ==> r == minute * 6 && 0 <= r < 360
  {
    if mode.HourMode? then JsRem(hour, 12) * 30 else JsRem(minute * 6, 360)
  }

  /** A snapped hour puts the needle on the hour mark nearest the click. */
  lemma SnapHourNearest(raw: int)
    requires -180 <= raw <= 180
    ensures var a := ClockAngle(raw); var d := a - NeedleTarget(HourMode, HourOfAngle(a), 0);
      -15 <= d <= 15 || -15 <= d - 360 <= 15
  {
    var h := HourOfAngle(ClockAngle(raw));
    assert NeedleTarget(HourMode, h, 0) == (h % 12) * 30;
  }

  /** A snapped minute puts the needle on the minute mark nearest the click. */
  lemma SnapMinuteNearest(raw: int)
    requires -180 <= raw <= 180
    ensures var a := ClockAngle(raw); var d := a - NeedleTarget(MinuteMode, 0, MinuteOfAngle(a));
      -3 <= d <= 3 || -3 <= d - 360 <= 3
  {
    var m := MinuteOfAngle(ClockAngle(raw));
    assert 0 <= m * 6 < 360;
    assert NeedleTarget(MinuteMode, 0, m) == m * 6;
  }

  /** Examples from the edges of the dial: just left of 12 is 12 o'clock and minute 0. */
  lemma SnapExamples()
    ensures HourOfAngle(0) == 12 && HourOfAngle(350) == 12 && HourOfAngle(344) == 11
    ensures MinuteOfAngle(359) == 0 && MinuteOfAngle(356) == 59 && MinuteOfAngle(3) == 1
  {
  }

  /** The `isValid` flag of `notifyTimeChange`. */
  predicate ClockIsValid(hour: int, minute: int) {
    1 <= hour <= 12 && 0 <= minute < 60
  }

  /** JavaScript truthiness of a `value` prop. */
  predicate Truthy(v: Value) {
    match v
    case Null => false
    case Undefined => false
    case Num(n) => n != 0
    case NotANumber => false
    case DateVal(_) => true
    case Str(s) => s != ""
  }

  /** The callbacks of `notifyTimeChange(hour, minute, period)`: `setValue` with the converted
      value, then `onTimeChange` with it and the validity flag. */
  function ClockNotices(host: Host, rt: ReturnType, orig: Value, reports: bool,
                        hour: int, minute: int, p: string): seq<Notice>
  {
    var converted := ConvertClockTimeToReturnType(host, hour, minute, p, rt, orig);
    [SetValue(converted)] + Report(reports, converted, ClockIsValid(hour, minute))
  }

  // ---------------------------------------------------------------------------
  // The clock's state

  class Clock {
    const host: Host
    const explicitType: Option<ReturnType>
    const reportsTimeChange: bool
    /** The `value` prop as last received. */
    var value: Value
    var selectedHour: int
    var selectedMinute: int
    /** The period shown (`formatedTime`). */
    var period: string
    var mode: Mode
    /** The needle's accumulated angle (`currentTime`). */
    var currentTime: int
    var originalValue: Value
    /** Whether the clock's own rectangle has been measured (`clockRect`). */
    var measured: bool
    var notices: seq<Notice>

    /** `returnType || detectReturnType(value)`, recomputed on every render. */
    function CurrentReturnType(): ReturnType
      reads this`value
    {
      ActualReturnType(explicitType, value)
    }

    /** What `notifyTimeChange` reports in the current state. */
    function NotifyNotices(hour: int, minute: int, p: string): seq<Notice>
      reads this`value, this`originalValue
    {
      ClockNotices(host, CurrentReturnType(), originalValue, reportsTimeChange, hour, minute, p)
    }

    constructor (host: Host, explicitType: Option<ReturnType>, reportsTimeChange: bool, value: Value)
      ensures this.host == host && this.explicitType == explicitType
      ensures this.reportsTimeChange == reportsTimeChange && this.value == value
      ensures ClockTime(selectedHour, selectedMinute, period) == ParseClockTimeFromValueCorrected(host, value)
      ensures mode == HourMode && currentTime == 0 && originalValue == value
      ensures !measured && notices == []
    {
      this.host := host;
      this.explicitType := explicitType;
      this.reportsTimeChange := reportsTimeChange;
      this.value := value;
      var t := ParseClockTimeFromValueCorrected(host, value);
      selectedHour, selectedMinute, period := t.hour, t.minute, t.period;
      mode := HourMode;
      currentTime := 0;
      originalValue := value;
      measured := false;
      notices := [];
    }

    /** The effect on `[value, mode]`: a truthy value is parsed into the fields and the needle turns
        to the current mode's mark; a falsy one resets the fields to its own reading and the needle
        to 0. */
    method SyncEffect()
      modifies this`selectedHour, this`selectedMinute, this`period, this`originalValue, this`currentTime
      ensures ClockTime(selectedHour, selectedMinute, period) == ParseClockTimeFromValueCorrected(host, value)
      ensures originalValue == value
      ensures currentTime == (if Truthy(value) then
        ShortestAngle(old(currentTime), NeedleTarget(mode, selectedHour, selectedMinute)) else 0)
    {
      var t := ParseClockTimeFromValueCorrected(host, value);
      selectedHour := t.hour;
      selectedMinute := t.minute;
      period := t.period;
      originalValue := value;
      if Truthy(value) {
        if mode == MinuteMode {
          var targetAngle := NeedleTarget(MinuteMode, t.hour, t.minute);
          currentTime := ShortestAngle(currentTime, targetAngle);
        } else {
          var targetAngle := NeedleTarget(HourMode, t.hour, t.minute);
          currentTime := ShortestAngle(currentTime, targetAngle);
        }
      } else {
        currentTime := 0;
      }
    }

    /** Mounting: the clock is measured and the value read again; then the `[value, mode]` effect runs. */
    method Mount()
      modifies this`measured, this`selectedHour, this`selectedMinute, this`period, this`originalValue, this`currentTime
      ensures measured && value == old(value) && mode == old(mode) && notices == old(notices)
      ensures ClockTime(selectedHour, selectedMinute, period) == ParseClockTimeFromValueCorrected(host, value)
      ensures originalValue == value
      ensures currentTime == (if Truthy(value) then
        ShortestAngle(old(currentTime), NeedleTarget(mode, selectedHour, selectedMinute)) else 0)
    {
      measured := true;
      var t := ParseClockTimeFromValueCorrected(host, value);
      selectedHour := t.hour;
      selectedMinute := t.minute;
      period := t.period;
      originalValue := value;
      SyncEffect();
    }

    /** A new `value` prop. */
    method ReceiveValue(v: Value)
      modifies this`value, this`selectedHour, this`selectedMinute, this`period, this`originalValue, this`currentTime
      ensures value == v
      ensures mode == old(mode) && measured == old(measured) && notices == old(notices)
      ensures ClockTime(selectedHour, selectedMinute, period) == ParseClockTimeFromValueCorrected(host, v)
      ensures originalValue == v
      ensures currentTime == (if Truthy(v) then
        ShortestAngle(old(currentTime), NeedleTarget(mode, selectedHour, selectedMinute)) else 0)
    {
      value := v;
      SyncEffect();
    }

    /** `setMode`: switching between the hour and the minute dial re-reads the value. */
    method SetMode(m: Mode)
      modifies this`mode, this`selectedHour, this`selectedMinute, this`period, this`originalValue, this`currentTime
      ensures mode == m && value == old(value) && measured == old(measured) && notices == old(notices)
      ensures ClockTime(selectedHour, selectedMinute, period) == ParseClockTimeFromValueCorrected(host, value)
      ensures originalValue == value
      ensures currentTime == (if Truthy(value) then
        ShortestAngle(old(currentTime), NeedleTarget(m, selectedHour, selectedMinute)) else 0)
    {
      mode := m;
      SyncEffect();
    }

    /** Selecting an hour: `setSelectedHour`, `notifyTimeChange` with the other fields as they are,
        and the needle turned to the hour's mark by the shortest way. */
    method SelectHour(hour: int)
      modifies this`selectedHour, this`notices, this`currentTime
      ensures selectedHour == hour
      ensures notices == old(notices) + NotifyNotices(hour, selectedMinute, period)
      ensures currentTime == ShortestAngle(old(currentTime), NeedleTarget(HourMode, hour, 0))
    {
      selectedHour := hour;
      notices := notices + NotifyNotices(hour, selectedMinute, period);
      var targetAngle := NeedleTarget(HourMode, hour, 0);
      currentTime := ShortestAngle(currentTime, targetAngle);
    }

    /** Selecting a minute, likewise. */
    method SelectMinute(minute: int)
      modifies this`selectedMinute, this`notices, this`currentTime
      ensures selectedMinute == minute
      ensures notices == old(notices) + NotifyNotices(selectedHour, minute, period)
      ensures currentTime == ShortestAngle(old(currentTime), NeedleTarget(MinuteMode, 0, minute))
    {
      selectedMinute := minute;
      notices := notices + NotifyNotices(selectedHour, minute, period);
      var targetAngle := NeedleTarget(MinuteMode, 0, minute);
      currentTime := ShortestAngle(currentTime, targetAngle);
    }

    /** `handleClockClick` from the click's `atan2` angle in degrees. Before the clock is measured
        nothing happens. In hour mode the nearest hour is selected, in minute mode the nearest
        minute; the owner is notified with the other fields unchanged and the needle turns to the
        new mark by at most half a turn. */
    method HandleClockClick(raw: int)
      requires -180 <= raw <= 180
      modifies this`selectedHour, this`selectedMinute, this`notices, this`currentTime
      ensures !measured ==> selectedHour == old(selectedHour) && selectedMinute == old(selectedMinute) &&
                            currentTime == old(currentTime) && notices == old(notices)
      ensures measured && mode.HourMode? ==>
        selectedHour == HourOfAngle(ClockAngle(raw)) && selectedMinute == old(selectedMinute) &&
        1 <= selectedHour <= 12 &&
        notices == old(notices) + NotifyNotices(selectedHour, selectedMinute, period)
      ensures measured && mode.MinuteMode? ==>
        selectedMinute == MinuteOfAngle(ClockAngle(raw)) && selectedHour == old(selectedHour) &&
        0 <= selectedMinute < 60 &&
        notices == old(notices) + NotifyNotices(selectedHour, selectedMinute, period)
      ensures measured ==>
        currentTime == ShortestAngle(old(currentTime), NeedleTarget(mode, selectedHour, selectedMinute))
    {
      if !measured {
        return;
      }
      var angle := ClockAngle(raw);
      if mode == HourMode {
        var hour := HourOfAngle(angle);
        SelectHour(hour);
      } else {
        var minute := MinuteOfAngle(angle);
        SelectMinute(minute);
      }
    }

    /** `handleHourInputChange`: an integer 1..12 (as `parseInt(text, 10)` reads it) is selected, the
        owner is notified and the needle turns to its mark; empty text sets the hour to 0 silently;
        anything else is ignored. */
    method HandleHourInputChange(text: string)
      modifies this`selectedHour, this`notices, this`currentTime
      ensures var n := ParseInt10(text);
        if n.Some? && 1 <= n.value <= 12 then
          selectedHour == n.value &&
          notices == old(notices) + NotifyNotices(n.value, selectedMinute, period) &&
          currentTime == ShortestAngle(old(currentTime), NeedleTarget(HourMode, n.value, 0))
        else
          selectedHour == (if text == "" then 0 else old(selectedHour)) &&
          notices == old(notices) && currentTime == old(currentTime)
    {
      var numericValue := ParseInt10(text);
      if numericValue.Some? && numericValue.value >= 1 && numericValue.value <= 12 {
        SelectHour(numericValue.value);
      } else if text == "" {
        selectedHour := 0;
      }
    }

    /** `handleMinuteInputChange`: an integer 0..59 is selected, the owner is notified and the needle
        turns to its mark; empty text sets the minute to 0 silently; anything else is ignored. */
    method HandleMinuteInputChange(text: string)
      modifies this`selectedMinute, this`notices, this`currentTime
      ensures var n := ParseInt10(text);
        if n.Some? && 0 <= n.value < 60 then
          selectedMinute == n.value &&
          notices == old(notices) + NotifyNotices(selectedHour, n.value, period) &&
          currentTime == ShortestAngle(old(currentTime), NeedleTarget(MinuteMode, 0, n.value))
        else
          selectedMinute == (if text == "" then 0 else old(selectedMinute)) &&
          notices == old(notices) && currentTime == old(currentTime)
    {
      var numericValue := ParseInt10(text);
      if numericValue.Some? && numericValue.value >= 0 && numericValue.value < 60 {
        SelectMinute(numericValue.value);
      } else if text == "" {
        selectedMinute := 0;
      }
    }

    /** `handlePeriodChange`: only the period changes; the owner is notified with the hour and
        minute as they are. */
    method HandlePeriodChange(newPeriod: string)
      modifies this`period, this`notices
      ensures period == newPeriod
      ensures notices == old(notices) + NotifyNotices(selectedHour, selectedMinute, newPeriod)
    {
      notices := notices + NotifyNotices(selectedHour, selectedMinute, newPeriod);
      period := newPeriod;
    }
  }

  // ---------------------------------------------------------------------------
  // What the clock reports

  /** A click always reports a valid time when the other field is in range: the snapped hour is in
      1..12 and the snapped minute in 0..59. */
  lemma ClickReportsValid(raw: int, hour: int, minute: int)
    requires -180 <= raw <= 180
    ensures 0 <= minute < 60 ==> ClockIsValid(HourOfAngle(ClockAngle(raw)), minute)
    ensures 1 <= hour <= 12 ==> ClockIsValid(hour, MinuteOfAngle(ClockAngle(raw)))
  {
  }

  /** The reported validity is exactly the 12-hour range check; an emptied hour (0) is invalid. */
  lemma ClockValidity(hour: int, minute: int)
    ensures ClockIsValid(hour, minute) <==> (1 <= hour <= 12 && 0 <= minute < 60)
    ensures !ClockIsValid(0, minute)
  {
  }
}
