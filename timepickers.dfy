/** The digital time pickers: the standalone `TimePicker` component and the `useTimePicker` hook it
    was later split into. Both keep the text being edited (`internalValue`), the last committed text
    (`prevValue`), the value they were first given (`originalValue`), whether the drop-down is open and
    where it is placed; they differ in how a value is read and how the drop-down is placed. */
module TimePickers {
  import opened JsText
  import opened JsDate
  import opened TimeFormat
  import opened Codec
  import opened Digital
  import opened Placement
  import opened Callbacks

  // ---------------------------------------------------------------------------
  // The component's own copy of parseTimeFromValue

  /** `parseTimeFromValue` as the standalone component defines it: a string whose trimmed text
      matches the time-only pattern is returned as that trimmed text, without reading it as a time;
      every other value is read as the shared helper reads it. The result is "", a canonical string,
      or time-only text. */
  function ParseTimeFromValueLocal(host: Host, v: Value, showSeconds: bool, is12: bool): (r: string)
    ensures v.Null? || v.Undefined? || (v.Str? && Trim(v.s) == "") ==> r == ""
    ensures r == "" || IsValidTime(r, Canonical(showSeconds, is12)) || MatchTimeOnly(r).Some?
  {
    if v.Str? && v.s != "" && Trim(v.s) != "" && MatchTimeOnly(Trim(v.s)).Some? then Trim(v.s)
    else ParseTimeFromValue(host, v, showSeconds, is12)
  }

  /** Away from time-only strings the two copies agree (with either reading of a period-less time). */
  lemma LocalParseElsewhere(host: Host, v: Value, showSeconds: bool, is12: bool)
    requires !v.Str? || MatchTimeOnly(Trim(v.s)).None?
    ensures ParseTimeFromValueLocal(host, v, showSeconds, is12) == ParseTimeFromValue(host, v, showSeconds, is12)
    ensures ParseTimeFromValueLocal(host, v, showSeconds, is12) ==
            ParseTimeFromValueCorrected(host, v, showSeconds, is12)
  {
    ParseCorrectionScope(host, v, showSeconds, is12);
  }

  /** Time-only text with nothing to trim comes back exactly as typed. */
  lemma LocalParseKeepsText(host: Host, tm: TimeMatch, showSeconds: bool, is12: bool)
    requires WellFormedMatch(tm) && Trimmed(tm)
    ensures ParseTimeFromValueLocal(host, Str(RenderMatch(tm)), showSeconds, is12) == RenderMatch(tm)
  {
    RenderTrimmed(tm);
    MatchOfRender(tm);
  }

  /** On the canonical strings both copies are the identity. */
  lemma LocalParseDisplay(host: Host, t: TimeOfDay, showSeconds: bool, is12: bool)
    requires t.Valid()
    ensures ParseTimeFromValueLocal(host, Str(Display(t, showSeconds, is12)), showSeconds, is12) ==
            Display(t, showSeconds, is12)
    ensures ParseTimeFromValueLocal(host, Str(Display(t, showSeconds, is12)), showSeconds, is12) ==
            ParseTimeFromValue(host, Str(Display(t, showSeconds, is12)), showSeconds, is12)
  {
    DisplayIsRender(t, showSeconds, is12);
    LocalParseKeepsText(host, DisplayMatch(t, showSeconds, is12), showSeconds, is12);
    ParseDisplayRoundTrip(host, t, showSeconds, is12);
  }

  /** Time-only text the pickers would not write themselves is where the copies part: "7:05 pm" is
      kept as it stands by the component, which its own validity check then rejects, while the shared
      helper turns it into "07:05 PM". */
  lemma LocalParseDiffers(host: Host)
    ensures ParseTimeFromValueLocal(host, Str("7:05 pm"), false, true) == "7:05 pm"
    ensures !IsValidTime("7:05 pm", Canonical(false, true))
    ensures ParseTimeFromValue(host, Str("7:05 pm"), false, true) == "07:05 PM"
  {
    var tm := SevenPm();
    LocalParseKeepsText(host, tm, false, true);
    ResolveRendered(host, tm, true, true);
    SetHoursInRange(Now(host), TimeOfDay(19, 5, 0));
    assert Tod(SetHours(Now(host), Some(19), Some(5), Some(0))) == TimeOfDay(19, 5, 0);
    SevenPmDisplay();
  }

  /** The groups of "7:05 pm". */
  function SevenPm(): (tm: TimeMatch)
    ensures WellFormedMatch(tm) && Trimmed(tm) && RenderMatch(tm) == "7:05 pm"
    ensures TimeOnlyHour(tm, true, true) == 19 && DecValue(tm.minute) == 5 && tm.second.None?
  {
    var tm := TimeMatch("7", "05", None, " ", Some("pm"));
    assert IsAmPm("pm") by { assert UpperChar('p') == 'P' && UpperChar('m') == 'M'; }
    assert ToUpper("pm") == "PM";
    assert DecValue("7") == 7 && DecValue("05") == 5;
    tm
  }

  lemma SevenPmDisplay()
    ensures Display(TimeOfDay(19, 5, 0), false, true) == "07:05 PM"
  {
    Pad2Digits(7, '0', '7');
    Pad2Digits(5, '0', '5');
    assert Hour12(19) == 7;
  }

  // ---------------------------------------------------------------------------
  // The drop-down lists

  /** The hour list: "01".."12" on the 12-hour clock, "00".."23" on the 24-hour clock. */
  function HourOptions(is12Hour: bool): (r: seq<string>)
    ensures |r| == (if is12Hour then 12 else 24)
  {
    if is12Hour then seq(12, i => Pad2(i + 1)) else seq(24, i => Pad2(i))
  }

  /** The minute and second lists: "00".."59". */
  function SixtyOptions(): (r: seq<string>)
    ensures |r| == 60
  {
    seq(60, i => Pad2(i))
  }

  /** Every list entry is an hour (minute, second) the validity check accepts, written with two digits
      and standing for its position in the list. */
  lemma OptionsValid(is12Hour: bool)
    ensures |HourOptions(is12Hour)| == (if is12Hour then 12 else 24) && |SixtyOptions()| == 60
    ensures forall i :: 0 <= i < |HourOptions(is12Hour)| ==>
      var h := HourOptions(is12Hour)[i];
      |h| == 2 && HourOk(h, is12Hour) && AllDigits(h) && DecValue(h) == (if is12Hour then i + 1 else i)
    ensures forall i :: 0 <= i < 60 ==>
      var m := SixtyOptions()[i]; SixtyOk(m) && AllDigits(m) && DecValue(m) == i
  {
    forall i | 0 <= i < |HourOptions(is12Hour)|
      ensures var h := HourOptions(is12Hour)[i];
        |h| == 2 && HourOk(h, is12Hour) && AllDigits(h) && DecValue(h) == (if is12Hour then i + 1 else i)
    {
      var k := if is12Hour then i + 1 else i;
      Pad2Small(k);
      HourOkPad2(k, is12Hour);
    }
    forall i | 0 <= i < 60
      ensures var m := SixtyOptions()[i]; SixtyOk(m) && AllDigits(m) && DecValue(m) == i
    {
      Pad2Small(i);
      SixtyOkPad2(i);
    }
  }

  // ---------------------------------------------------------------------------
  // What the pickers report

  /** What an edit reports: the new text in the caller's encoding for `setValue`, then the text and
      whether `isValidTime` accepts it for `onTimeChange`, when one is given. */
  function EditNotices(host: Host, rt: ReturnType, orig: Value, reports: bool, text: string, f: Format)
    : seq<Notice>
  {
    [SetValue(ConvertTimeToReturnType(host, text, rt, orig))] + Report(reports, Str(text), IsValidTime(text, f))
  }

  /** The text a picker shows when given a value whose 12-hour and AM/PM switches agree is accepted
      by its own validity check (or empty). */
  lemma ParsedValidWhenSwitchesAgree(host: Host, v: Value, f: Format)
    requires f.is12Hour == f.showAmPm
    ensures var r := ParseTimeFromValueCorrected(host, v, f.showSeconds, f.is12Hour && f.showAmPm);
      r == "" || IsValidTime(r, f)
  {
    assert Canonical(f.showSeconds, f.is12Hour && f.showAmPm) == f;
  }

  /** When the switches disagree the value is read on the 24-hour clock ("13:00") but checked against
      the 12-hour pattern, or against a pattern that wants a period, and is rejected either way. */
  lemma ParsedInvalidWhenSwitchesDisagree(host: Host)
    ensures ParseTimeFromValueCorrected(host, Str("13:00"), false, false) == "13:00"
    ensures !IsValidTime("13:00", Format(true, false, false))
    ensures !IsValidTime("13:00", Format(false, false, true))
  {
    DisplayExamples();
    ParseDisplayRoundTrip(host, TimeOfDay(13, 0, 0), false, false);
  }

  // ---------------------------------------------------------------------------
  // The picker's state

  class Picker {
    /** The standalone component (true) or the hook (false). */
    const standalone: bool
    const host: Host
    /** `is12HourFormat`, `showSeconds` and `showAMPM`. */
    const format: Format
    const align: Align
    const explicitType: Option<ReturnType>
    /** Whether an `onTimeChange` callback was given. */
    const reportsTimeChange: bool
    /** The `value` prop as last received. */
    var value: Value
    /** `returnType || detectReturnType(value)` of the current render. */
    var returnType: ReturnType
    var internalValue: string
    var prevValue: string
    var originalValue: Value
    var isFocused: bool
    var position: Option<Position>
    var notices: seq<Notice>

    /** How this picker reads a value: the 12-hour display is used when both the 12-hour clock and the
        AM/PM suffix are on. The hook uses the shared helper (with period-less input read as a 24-hour
        time), the component its own copy. */
    function Parse(v: Value): string {
      var is12 := format.is12Hour && format.showAmPm;
      if standalone then ParseTimeFromValueLocal(host, v, format.showSeconds, is12)
      else ParseTimeFromValueCorrected(host, v, format.showSeconds, is12)
    }

    /** Where this picker places its drop-down. */
    function Place(g: Geometry): Position {
      if standalone then StandalonePlacement(align, g) else HookPlacement(align, g)
    }

    /** What an edit to `text` reports in the current state. */
    function Edit(text: string): seq<Notice>
      reads this`returnType, this`originalValue
    {
      EditNotices(host, returnType, originalValue, reportsTimeChange, text, format)
    }

    /** The input is marked invalid when it holds text the validity check rejects. */
    predicate ShowsInvalid()
      reads this`internalValue
    {
      internalValue != "" && !IsValidTime(internalValue, format)
    }

    constructor (standalone: bool, host: Host, format: Format, align: Align, explicitType: Option<ReturnType>,
                 reportsTimeChange: bool, value: Value)
      ensures this.standalone == standalone && this.host == host && this.format == format
      ensures this.align == align && this.explicitType == explicitType
      ensures this.reportsTimeChange == reportsTimeChange && this.value == value
      ensures returnType == ActualReturnType(explicitType, value)
      ensures internalValue == Parse(value) && prevValue == internalValue && originalValue == value
      ensures !isFocused && position.None? && notices == []
    {
      this.standalone := standalone;
      this.host := host;
      this.format := format;
      this.align := align;
      this.explicitType := explicitType;
      this.reportsTimeChange := reportsTimeChange;
      this.value := value;
      returnType := ActualReturnType(explicitType, value);
      var is12 := format.is12Hour && format.showAmPm;
      if standalone {
        internalValue := ParseTimeFromValueLocal(host, value, format.showSeconds, is12);
      } else {
        internalValue := ParseTimeFromValueCorrected(host, value, format.showSeconds, is12);
      }
      prevValue := internalValue;
      originalValue := value;
      isFocused := false;
      position := None;
      notices := [];
    }

    /** The mount effect. The hook reads the value again (taking it over, with the committed text and
        the original value, when the reading differs from the text), places the drop-down, and
        commits the text it saw at render time when that differed from the committed one. The
        component only places the drop-down and commits the text. State set by the effect is read
        at its old value within it. */
    method Mount(g: Geometry)
      modifies this`internalValue, this`prevValue, this`originalValue, this`position
      ensures position == Some(Place(g))
      ensures standalone ==> internalValue == old(internalValue) && prevValue == internalValue &&
                             originalValue == old(originalValue)
      ensures !standalone ==>
        internalValue == Parse(value) &&
        prevValue == (if old(internalValue) == old(prevValue) then internalValue else old(internalValue)) &&
        originalValue == (if Parse(value) != old(internalValue) then value else old(originalValue))
    {
      if standalone {
        var p := SetPositionStandalone(align, g);
        position := Some(p);
        if internalValue != prevValue {
          prevValue := internalValue;
        }
      } else {
        var renderedInternal := internalValue;
        var renderedPrev := prevValue;
        var parsedValue := Parse(value);
        if parsedValue != renderedInternal {
          internalValue := parsedValue;
          prevValue := parsedValue;
          originalValue := value;
        }
        var p := SetPositionHook(align, g);
        position := Some(p);
        if renderedInternal != renderedPrev {
          prevValue := renderedInternal;
        }
      }
    }

    /** A new `value` prop. The return type follows it in both; the component also reads it again
        and, when the reading differs from the text, takes it over as the text, the committed text
        and the original value; the hook reads its value only on mount. */
    method ReceiveValue(v: Value)
      modifies this`value, this`returnType, this`internalValue, this`prevValue, this`originalValue
      ensures value == v && returnType == ActualReturnType(explicitType, v)
      ensures standalone && Parse(v) != old(internalValue) ==>
        internalValue == Parse(v) && prevValue == Parse(v) && originalValue == v
      ensures !standalone || Parse(v) == old(internalValue) ==>
        internalValue == old(internalValue) && prevValue == old(prevValue) && originalValue == old(originalValue)
    {
      value := v;
      returnType := ActualReturnType(explicitType, v);
      if standalone {
        var parsedValue := Parse(v);
        if parsedValue != internalValue {
          internalValue := parsedValue;
          prevValue := parsedValue;
          originalValue := v;
        }
      }
    }

    /** `updateTime`: the parts passed replace the current ones, the rest are kept (defaulted), and
        the result is reported. `PickParts` states which parts the new text then holds. */
    method UpdateTime(newHour: Option<string>, newMinute: Option<string>, newSecond: Option<string>,
                      newPeriod: Option<string>)
      modifies this`internalValue, this`notices
      ensures internalValue == UpdatedTime(old(internalValue), newHour, newMinute, newSecond, newPeriod, format)
      ensures notices == old(notices) + Edit(internalValue)
    {
      var currentParts := GetTimes(internalValue, format.showSeconds);
      var updatedHour := ArgOr(newHour, Or(currentParts.hour, "00"));
      var updatedMinute := ArgOr(newMinute, Or(currentParts.minute, "00"));
      var updatedSecond := if format.showSeconds then ArgOr(newSecond, Or(currentParts.second, "00")) else "";
      var updatedPeriod := if format.showAmPm then ArgOr(newPeriod, Or(currentParts.period, "AM")) else "";
      var newTime := updatedHour + ":" + updatedMinute;
      ghost var clock := newTime + (if format.showSeconds then ":" + updatedSecond else "");
      if format.showSeconds {
        newTime := newTime + (":" + updatedSecond);
      }
      assert newTime == clock;
      if format.showAmPm {
        newTime := newTime + (" " + updatedPeriod);
      }
      assert newTime == clock + (if format.showAmPm then " " + updatedPeriod else "");
      assert newTime == UpdatedTime(internalValue, newHour, newMinute, newSecond, newPeriod, format);
      internalValue := newTime;
      notices := notices + Edit(newTime);
    }

    /** A click on an hour of the list. */
    method HandleHourClick(selectedHour: string)
      modifies this`internalValue, this`notices
      ensures internalValue == UpdatedTime(old(internalValue), Some(selectedHour), None, None, None, format)
      ensures notices == old(notices) + Edit(internalValue)
    {
      UpdateTime(Some(selectedHour), None, None, None);
    }

    /** A click on a minute of the list. */
    method HandleMinuteClick(selectedMinute: string)
      modifies this`internalValue, this`notices
      ensures internalValue == UpdatedTime(old(internalValue), None, Some(selectedMinute), None, None, format)
      ensures notices == old(notices) + Edit(internalValue)
    {
      UpdateTime(None, Some(selectedMinute), None, None);
    }

    /** A click on a second of the list. */
    method HandleSecondClick(selectedSecond: string)
      modifies this`internalValue, this`notices
      ensures internalValue == UpdatedTime(old(internalValue), None, None, Some(selectedSecond), None, format)
      ensures notices == old(notices) + Edit(internalValue)
    {
      UpdateTime(None, None, Some(selectedSecond), None);
    }

    /** A click on AM or PM. */
    method HandlePeriodClick(selectedPeriod: string)
      modifies this`internalValue, this`notices
      ensures internalValue == UpdatedTime(old(internalValue), None, None, None, Some(selectedPeriod), format)
      ensures notices == old(notices) + Edit(internalValue)
    {
      UpdateTime(None, None, None, Some(selectedPeriod));
    }

    /** `handleChange`: the typed text is masked; without digits the text is cleared and reported as
        ("", false). The reported validity is exactly whether the time is complete, and the input is
        marked invalid exactly while it is partly typed. */
    method HandleChange(raw: string)
      modifies this`internalValue, this`notices
      ensures internalValue == Masked(raw, format)
      ensures notices == old(notices) + Edit(internalValue)
      ensures IsValidTime(internalValue, format) <==> |DigitsOf(ToUpper(raw))| >= Threshold(format)
      ensures ShowsInvalid() <==> 0 < |DigitsOf(ToUpper(raw))| < Threshold(format)
    {
      var input := ToUpper(raw);
      var numbers := DigitsOf(input);
      MaskValid(raw, format);
      MaskEmpty(raw, format);
      EmptyIsInvalid(format);
      if |numbers| == 0 {
        internalValue := "";
        notices := notices + [SetValue(ConvertTimeToReturnType(host, "", returnType, originalValue))];
        notices := notices + Report(reportsTimeChange, Str(""), false);
        return;
      }
      var formatted := FormatInput(raw, format);
      internalValue := formatted;
      notices := notices + [SetValue(ConvertTimeToReturnType(host, formatted, returnType, originalValue))];
      notices := notices + Report(reportsTimeChange, Str(formatted), IsValidTime(formatted, format));
    }

    /** `handleFocus`: the drop-down opens and is placed next to the input. */
    method HandleFocus(g: Geometry)
      modifies this`isFocused, this`position
      ensures isFocused && position == Some(Place(g))
    {
      isFocused := true;
      var p;
      if standalone {
        p := SetPositionStandalone(align, g);
      } else {
        p := SetPositionHook(align, g);
      }
      position := Some(p);
    }

    /** `handleBlur`: focus moving out of the input closes the drop-down. */
    method HandleBlur(focusStaysInside: bool)
      modifies this`isFocused
      ensures isFocused == (old(isFocused) && focusStaysInside)
    {
      if !focusStaysInside {
        isFocused := false;
      }
    }

    /** `handleCancel`: the committed text is restored and sent to `setValue`, the change is reported
        as ("", false), and the drop-down closes. */
    method HandleCancel()
      modifies this`internalValue, this`notices, this`isFocused
      ensures internalValue == prevValue && !isFocused
      ensures notices == old(notices) + [SetValue(ConvertTimeToReturnType(host, prevValue, returnType, originalValue))] +
                         Report(reportsTimeChange, Str(""), false)
    {
      var restored := Or(prevValue, "");
      internalValue := restored;
      notices := notices + [SetValue(ConvertTimeToReturnType(host, restored, returnType, originalValue))];
      notices := notices + Report(reportsTimeChange, Str(""), false);
      isFocused := false;
    }

    /** `handleOk`: the text is reported with its validity, committed, and the drop-down closes. */
    method HandleOk()
      modifies this`prevValue, this`notices, this`isFocused
      ensures prevValue == internalValue && !isFocused
      ensures notices == old(notices) + Report(reportsTimeChange, Str(internalValue), IsValidTime(internalValue, format))
    {
      notices := notices + Report(reportsTimeChange, Str(internalValue), IsValidTime(internalValue, format));
      isFocused := false;
      prevValue := internalValue;
    }
  }

  /** Confirming, typing and then cancelling brings back the text that was confirmed. */
  method ConfirmTypeCancel(p: Picker, raw: string)
    modifies p
    ensures p.internalValue == old(p.internalValue) && p.prevValue == old(p.internalValue) && !p.isFocused
  {
    p.HandleOk();
    p.HandleChange(raw);
    p.HandleCancel();
  }
}
