/** The clock picker's input side (`useClockPicker`): a 12-hour text field with an AM/PM suffix and
    no seconds, whose drop-down holds the analog clock. It keeps the text being edited, the committed
    text, the original value, whether the drop-down is open and where it is placed. */
module ClockPickers {
  import opened JsText
  import opened TimeFormat
  import opened Codec
  import opened Digital
  import opened Placement
  import opened Callbacks
  import opened JsDate

  /** The only format the clock picker has: 12-hour clock, no seconds, AM/PM shown. */
  const ClockFormat: Format := Format(true, false, true)

  // ---------------------------------------------------------------------------
  // The keystroke mask

  /** `handleChange`'s formatting: upper-case the input, keep its digits, and lay out the hour, the
      minute and, from four digits on, " PM" when a 'P' was typed and " AM" otherwise. It is the
      digital pickers' mask in the clock picker's format. */
  method ClockFormatInput(raw: string) returns (formatted: string)
    ensures formatted == Masked(raw, ClockFormat)
  {
    var input := ToUpper(raw);
    var numbers := DigitsOf(input);
    var hasPM := 'P' in input;
    formatted := ClockFormatDigits(numbers, hasPM);
  }

  method ClockFormatDigits(numbers: string, hasPM: bool) returns (formatted: string)
    requires AllDigits(numbers)
    ensures formatted == MaskDigits(numbers, hasPM, ClockFormat)
  {
    formatted := "";
    if |numbers| == 0 {
      return;
    }
    var hour := ClockHour(numbers);
    formatted := hour;
    var minute := ClockMinutePart(numbers);
    formatted := formatted + minute;
    var suffix := "";
    if |numbers| >= 4 {
      suffix := suffix + " ";
      if hasPM {
        suffix := suffix + "PM";
      } else {
        suffix := suffix + "AM";
      }
    }
    formatted := formatted + suffix;
  }

  /** The hour step, on numbers: above 12 becomes 12, 0 becomes 1, and the number is written with two
      digits; a lone first digit is kept. */
  method ClockHour(numbers: string) returns (hour: string)
    requires AllDigits(numbers) && |numbers| > 0
    ensures hour == Field(numbers, 0, true, true)
  {
    hour := Substring(numbers, 0, 2);
    SubstringField(numbers, 0, true, true);
    if |numbers| == 1 {
      return;
    }
    var hourNum := ParseInt(hour).value;
    if hourNum > 12 {
      hourNum := 12;
    }
    if hourNum == 0 {
      hourNum := 1;
    }
    ClockHourClamp(hour);
    hour := Pad2(hourNum);
  }

  /** ":" and the minute, once a third digit is typed. */
  method ClockMinutePart(numbers: string) returns (part: string)
    requires AllDigits(numbers)
    ensures part == if |numbers| >= 3 then ":" + Field(numbers, 2, false, true) else ""
  {
    part := "";
    if |numbers| >= 3 {
      var minute := ClockMinute(numbers);
      part := part + ":" + minute;
    }
  }

  /** The minute step, on numbers: above 59 becomes 59, written with two digits; a lone third digit
      is kept. */
  method ClockMinute(numbers: string) returns (minute: string)
    requires AllDigits(numbers) && |numbers| >= 3
    ensures minute == Field(numbers, 2, false, true)
  {
    minute := Substring(numbers, 2, 4);
    SubstringField(numbers, 2, false, true);
    if |numbers| == 3 {
      return;
    }
    var minuteNum := ParseInt(minute).value;
    if minuteNum > 59 {
      minuteNum := 59;
    }
    ClockMinuteClamp(minute);
    minute := Pad2(minuteNum);
  }

  /** Clamping the hour's number and padding it gives the mask's clamped hour. */
  lemma ClockHourClamp(t: string)
    requires |t| == 2 && AllDigits(t)
    ensures var v := DecValue(t);
      Pad2(if v > 12 then 12 else if v == 0 then 1 else v) == ClampHour(t, true)
  {
    Pad2OfDigits(t);
    TwelveText();
    assert NatText(1) == "1";
  }

  /** Clamping the minute's number and padding it gives the mask's clamped minute. */
  lemma ClockMinuteClamp(t: string)
    requires |t| == 2 && AllDigits(t)
    ensures Pad2(if DecValue(t) > 59 then 59 else DecValue(t)) == Clamp59(t)
  {
    Pad2OfDigits(t);
    assert NatText(59) == NatText(5) + [DigitChar(9)] == "59";
  }

  // ---------------------------------------------------------------------------
  // Validity

  /** The clock picker's `isValidTime`: `^(0[1-9]|1[0-2]):([0-5][0-9]) (AM|PM)$`. */
  predicate ClockValid(s: string)
    ensures ClockValid(s) <==> IsValidTime(s, ClockFormat)
  {
    |s| == 8 && HourOk(s[..2], true) && s[2] == ':' && SixtyOk(s[3..5]) && (s[5..] == " AM" || s[5..] == " PM")
  }

  /** A padded number is a 12-hour hour exactly when it is 1..12. */
  lemma HourOkPad2Iff(h: int)
    requires 0 <= h < 100
    ensures HourOk(Pad2(h), true) <==> 1 <= h <= 12
  {
    Pad2Small(h);
    DecValue2(Pad2(h));
  }

  /** A padded number is a minute exactly when it is below 60. */
  lemma SixtyOkPad2Iff(m: int)
    requires 0 <= m < 100
    ensures SixtyOk(Pad2(m)) <==> m < 60
  {
    Pad2Small(m);
    DecValue2(Pad2(m));
  }

  /** The clock's output text is valid exactly for an hour 1..12, a minute 0..59 and AM or PM. */
  lemma ClockTextValid(hour: int, minute: int, period: string)
    requires 0 <= hour < 100 && 0 <= minute < 100
    ensures ClockValid(ClockText(hour, minute, period)) <==>
            1 <= hour <= 12 && minute < 60 && (period == "AM" || period == "PM")
  {
    Pad2Small(hour);
    Pad2Small(minute);
    HourOkPad2Iff(hour);
    SixtyOkPad2Iff(minute);
    ClockValidFields(Pad2(hour), Pad2(minute), period);
  }

  /** A text laid out as the clock writes it is valid exactly when its fields are. */
  lemma ClockValidFields(hh: string, mm: string, period: string)
    requires |hh| == 2 && |mm| == 2
    ensures ClockValid(hh + ":" + mm + " " + period) <==>
            HourOk(hh, true) && SixtyOk(mm) && (period == "AM" || period == "PM")
  {
    var s := hh + ":" + mm + " " + period;
    assert s[..2] == hh && s[2] == ':' && s[3..5] == mm;
    assert s[5..] == " " + period && (" " + period)[1..] == period;
  }

  /** A valid text is the clock's rendering of its own hour, minute and period. */
  lemma ClockValidIsClockText(s: string)
    requires ClockValid(s)
    ensures AllDigits(s[..2]) && AllDigits(s[3..5])
    ensures var h := DecValue(s[..2]); var m := DecValue(s[3..5]);
      1 <= h <= 12 && 0 <= m < 60 && (s[6..] == "AM" || s[6..] == "PM") && s == ClockText(h, m, s[6..])
  {
    var hh, mm := s[..2], s[3..5];
    assert AllDigits(hh) && AllDigits(mm) by {
      assert hh == [s[0], s[1]] && mm == [s[3], s[4]];
    }
    assert s[5] == ' ' && (s[6..] == "AM" || s[6..] == "PM") by {
      assert s[6..] == s[5..][1..];
    }
    DecValue2(hh);
    DecValue2(mm);
    Pad2OfDigits(hh);
    Pad2OfDigits(mm);
    HourOkPad2Iff(DecValue(hh));
    SixtyOkPad2Iff(DecValue(mm));
    assert s == hh + ":" + mm + " " + s[6..];
  }

  /** Clock texts never look like ISO or date-time strings. */
  lemma ClockTextIsTimeString(hour: int, minute: int, period: string)
    requires 0 <= hour < 100 && 0 <= minute < 100 && (period == "AM" || period == "PM")
    ensures DetectReturnType(Str(ClockText(hour, minute, period))) == TimeString
  {
    Pad2Small(hour);
    Pad2Small(minute);
    var s := ClockText(hour, minute, period);
    assert |s| == 8;
    assert forall i | 0 <= i < 8 :: s[i] != 'T' && s[i] != '/' by {
      assert s[2] == ':' && s[5] == ' ' && s[7] == 'M' && (s[6] == 'A' || s[6] == 'P');
      assert IsDigit(s[0]) && IsDigit(s[1]) && IsDigit(s[3]) && IsDigit(s[4]);
    }
    assert 'T' !in s && '/' !in s;
  }

  /** The clock in the drop-down is given the picker's text with no return type. A time on the dial,
      written as the clock writes it, is valid, is read back as the same hour, minute and period, and
      what the clock hands back for it is the same text. With `ClockValidIsClockText`, every valid
      text of the picker makes this round trip. */
  lemma ClockEchoesPickerText(host: Host, hour: int, minute: int, period: string, orig: Value)
    requires 1 <= hour <= 12 && 0 <= minute < 60 && (period == "AM" || period == "PM")
    ensures var s := ClockText(hour, minute, period);
      ClockValid(s) &&
      ParseClockTimeFromValueCorrected(host, Str(s)) == ClockTime(hour, minute, period) &&
      ConvertClockTimeToReturnType(host, hour, minute, period, DetectReturnType(Str(s)), orig) == Str(s)
  {
    ClockTextValid(hour, minute, period);
    ClockTimeStringRoundTrip(host, hour, minute, period, orig);
    ClockTextIsTimeString(hour, minute, period);
  }

  // ---------------------------------------------------------------------------
  // The picker's state

  class ClockPicker {
    const host: Host
    const align: Align
    const explicitType: Option<ReturnType>
    /** Whether an `onTimeChange` callback was given. */
    const reportsTimeChange: bool
    /** The `value` prop as last received. */
    var value: Value
    /** `returnType || detectReturnType(value)` of the current render. */
    var returnType: ReturnType
    var internalValue: string
    var prevValue: string
    var originalValue: Value
    var isFocused: bool
    var position: Option<Position>
    var notices: seq<Notice>

    /** How the clock picker reads a value: the shared helper with its defaults (no seconds, 12-hour
        display), with period-less input read as a 24-hour time. */
    function Parse(v: Value): string {
      ParseTimeFromValueCorrected(host, v, false, true)
    }

    /** `convertTimeToReturnType` for the current render. */
    function Converted(text: string): Value
      reads this`returnType, this`originalValue
    {
      ConvertTimeToReturnType(host, text, returnType, originalValue)
    }

    constructor (host: Host, align: Align, explicitType: Option<ReturnType>, reportsTimeChange: bool, value: Value)
      ensures this.host == host && this.align == align && this.explicitType == explicitType
      ensures this.reportsTimeChange == reportsTimeChange && this.value == value
      ensures returnType == ActualReturnType(explicitType, value)
      ensures internalValue == Parse(value) && prevValue == internalValue && originalValue == value
      ensures !isFocused && position.None? && notices == []
    {
      this.host := host;
      this.align := align;
      this.explicitType := explicitType;
      this.reportsTimeChange := reportsTimeChange;
      this.value := value;
      returnType := ActualReturnType(explicitType, value);
      internalValue := ParseTimeFromValueCorrected(host, value, false, true);
      prevValue := internalValue;
      originalValue := value;
      isFocused := false;
      position := None;
      notices := [];
    }

    /** The mount effect: read the value again (taking it over, with the committed text and the
        original value, when the reading differs from the text), place the drop-down, and commit the
        text seen at render time when it differed from the committed one. */
    method Mount(g: Geometry)
      modifies this`internalValue, this`prevValue, this`originalValue, this`position
      ensures position == Some(HookPlacement(align, g))
      ensures internalValue == Parse(value)
      ensures prevValue == (if old(internalValue) == old(prevValue) then internalValue else old(internalValue))
      ensures originalValue == (if Parse(value) != old(internalValue) then value else old(originalValue))
    {
      var renderedInternal := internalValue;
      var renderedPrev := prevValue;
      var parsedValue := Parse(value);
      if parsedValue != renderedInternal {
        internalValue := parsedValue;
        prevValue := parsedValue;
        originalValue := value;
      }
      var p := SetPositionHook(align, g);
      position := Some(p);
      if renderedInternal != renderedPrev {
        prevValue := renderedInternal;
      }
    }

    /** A new `value` prop: only the return type follows it; the value is read on mount only. */
    method ReceiveValue(v: Value)
      modifies this`value, this`returnType
      ensures value == v && returnType == ActualReturnType(explicitType, v)
    {
      value := v;
      returnType := ActualReturnType(explicitType, v);
    }

    /** `handleChange`: the typed text is masked and reported, `setValue` first; the reported
        validity is exactly whether four digits were typed, and the text fits the input's eight
        characters. */
    method HandleChange(raw: string)
      modifies this`internalValue, this`notices
      ensures internalValue == Masked(raw, ClockFormat) && |internalValue| <= 8
      ensures notices == old(notices) + [SetValue(Converted(internalValue))] +
                         Report(reportsTimeChange, Str(internalValue), ClockValid(internalValue))
      ensures ClockValid(internalValue) <==> |DigitsOf(ToUpper(raw))| >= 4
    {
      var input := ToUpper(raw);
      var numbers := DigitsOf(input);
      MaskValid(raw, ClockFormat);
      if |numbers| == 0 {
        internalValue := "";
        notices := notices + [SetValue(ConvertTimeToReturnType(host, "", returnType, originalValue))];
        notices := notices + Report(reportsTimeChange, Str(""), false);
        return;
      }
      var formatted := ClockFormatInput(raw);
      internalValue := formatted;
      var isValid := ClockValid(formatted);
      notices := notices + [SetValue(ConvertTimeToReturnType(host, formatted, returnType, originalValue))];
      notices := notices + Report(reportsTimeChange, Str(formatted), isValid);
    }

    /** `handleClockFocus`: the drop-down toggles, and is placed only when it opens. */
    method HandleClockFocus(g: Geometry)
      modifies this`isFocused, this`position
      ensures isFocused == !old(isFocused)
      ensures position == if isFocused then Some(HookPlacement(align, g)) else old(position)
    {
      var wasFocused := isFocused;
      isFocused := !wasFocused;
      if !wasFocused {
        var p := SetPositionHook(align, g);
        position := Some(p);
      }
    }

    /** A mouse press outside both the drop-down and the input closes the drop-down. */
    method HandleClickOutside(inContainer: bool, inWrapper: bool)
      modifies this`isFocused
      ensures isFocused == (old(isFocused) && (inContainer || inWrapper))
    {
      if !inContainer && !inWrapper {
        isFocused := false;
      }
    }

    /** `handleCancel`: the committed text is restored and sent to `setValue`, the change is reported
        as ("", false), and the drop-down closes. */
    method HandleCancel()
      modifies this`internalValue, this`notices, this`isFocused
      ensures internalValue == prevValue && !isFocused
      ensures notices == old(notices) + [SetValue(Converted(prevValue))] + Report(reportsTimeChange, Str(""), false)
    {
      var restored := Or(prevValue, "");
      internalValue := restored;
      notices := notices + [SetValue(ConvertTimeToReturnType(host, restored, returnType, originalValue))];
      notices := notices + Report(reportsTimeChange, Str(""), false);
      isFocused := false;
    }

    /** `handleTimeChange`, the clock's `setValue`: the text is taken over and reported, here with
        `onTimeChange` before `setValue`. */
    method HandleTimeChange(time: string)
      modifies this`internalValue, this`notices
      ensures internalValue == time
      ensures notices == old(notices) + Report(reportsTimeChange, Str(time), ClockValid(time)) +
                         [SetValue(Converted(time))]
    {
      internalValue := time;
      var converted := ConvertTimeToReturnType(host, time, returnType, originalValue);
      var isValid := ClockValid(time);
      notices := notices + Report(reportsTimeChange, Str(time), isValid);
      notices := notices + [SetValue(converted)];
    }

    /** `handleOk`: the text is reported with its validity, committed, and the drop-down closes. */
    method HandleOk()
      modifies this`prevValue, this`notices, this`isFocused
      ensures prevValue == internalValue && !isFocused
      ensures notices == old(notices) + Report(reportsTimeChange, Str(internalValue), ClockValid(internalValue))
    {
      notices := notices + Report(reportsTimeChange, Str(internalValue), ClockValid(internalValue));
      isFocused := false;
      prevValue := internalValue;
    }
  }

  /** A time set on the clock face arrives in the text field as the clock's text, and is reported
      valid exactly when it is on the dial. */
  method ClockSetsText(p: ClockPicker, hour: int, minute: int, period: string)
    requires 0 <= hour < 100 && 0 <= minute < 100
    modifies p
    ensures p.internalValue == ClockText(hour, minute, period)
    ensures |p.notices| > |old(p.notices)|
    ensures p.reportsTimeChange ==>
      p.notices[|old(p.notices)|] ==
      TimeChange(Str(ClockText(hour, minute, period)), 1 <= hour <= 12 && minute < 60 && (period == "AM" || period == "PM"))
  {
    ClockTextValid(hour, minute, period);
    p.HandleTimeChange(ClockText(hour, minute, period));
  }
}
