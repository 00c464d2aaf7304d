/** The canonical display string of a time and the validity rule the pickers apply to it. */
module TimeFormat {
  import opened JsText
  import opened JsDate

  /** The three switches that shape a picker's text: 12-hour clock, a seconds field, an AM/PM suffix. */
  datatype Format = Format(is12Hour: bool, showSeconds: bool, showAmPm: bool)

  /** The hour alternatives of the validity pattern: `0[1-9]|1[0-2]` on the 12-hour clock,
      `[01]?[0-9]|2[0-3]` on the 24-hour clock. */
  predicate HourOk(h: string, is12Hour: bool) {
    if is12Hour then
      |h| == 2 && ((h[0] == '0' && '1' <= h[1] <= '9') || (h[0] == '1' && '0' <= h[1] <= '2'))
    else
      (|h| == 1 && IsDigit(h[0])) ||
      (|h| == 2 && (((h[0] == '0' || h[0] == '1') && IsDigit(h[1])) || (h[0] == '2' && '0' <= h[1] <= '3')))
  }

  /** `[0-5][0-9]`. */
  predicate SixtyOk(t: string) {
    |t| == 2 && '0' <= t[0] <= '5' && IsDigit(t[1])
  }

  /** Characters after the hour in a valid string: ":MM", then ":SS" and " AM" when switched on. */
  function TailLength(f: Format): nat {
    3 + (if f.showSeconds then 3 else 0) + (if f.showAmPm then 3 else 0)
  }

  /** `isValidTime`: the whole string matches `^H:([0-5][0-9])` followed by `:([0-5][0-9])` when seconds
      are shown and ` (AM|PM)` when the suffix is shown; the empty string is invalid. An hour of one
      character ends at the first ':' (position 1); otherwise the hour is two characters. */
  predicate IsValidTime(s: string, f: Format)
    ensures IsValidTime(s, f) ==> 1 + TailLength(f) <= |s| <= 2 + TailLength(f) && IsDigit(s[0])
    ensures IsValidTime(s, f) && f.is12Hour ==> |s| == 2 + TailLength(f)
  {
    var hl := if |s| >= 2 && s[1] == ':' then 1 else 2;
    |s| == hl + TailLength(f) &&
    HourOk(s[..hl], f.is12Hour) && s[hl] == ':' && SixtyOk(s[hl + 1..hl + 3]) &&
    (f.showSeconds ==> s[hl + 3] == ':' && SixtyOk(s[hl + 4..hl + 6])) &&
    (f.showAmPm ==> s[|s| - 3..] == " AM" || s[|s| - 3..] == " PM")
  }

  lemma EmptyIsInvalid(f: Format)
    ensures !IsValidTime("", f)
  {
  }

  /** The hour shown on a 12-hour clock: 0 and 12 show as 12. */
  function Hour12(h: int): int {
    if h % 12 == 0 then 12 else h % 12
  }

  function PeriodOf(h: int): string {
    if h >= 12 then "PM" else "AM"
  }

  /** The canonical text of a time of day: zero-padded hour and minute, ":SS" when seconds are shown,
      and on the 12-hour clock the hour folded into 1..12 followed by " AM" or " PM". */
  function Display(t: TimeOfDay, showSeconds: bool, is12: bool): (r: string)
    ensures t.Valid() ==> |r| == 2 + TailLength(Canonical(showSeconds, is12))
    ensures is12 ==> |r| >= 3 && r[|r| - 3..] == " " + PeriodOf(t.hour)
  {
    Pad2Fields(t, is12);
    Pad2(if is12 then Hour12(t.hour) else t.hour) + ":" + Pad2(t.minute) +
    (if showSeconds then ":" + Pad2(t.second) else "") +
    (if is12 then " " + PeriodOf(t.hour) else "")
  }

  lemma Pad2Fields(t: TimeOfDay, is12: bool)
    ensures t.Valid() ==> |Pad2(if is12 then Hour12(t.hour) else t.hour)| == 2 && |Pad2(t.minute)| == 2 && |Pad2(t.second)| == 2
  {
    if t.Valid() {
      Pad2Small(if is12 then Hour12(t.hour) else t.hour);
      Pad2Small(t.minute);
      Pad2Small(t.second);
    }
  }

  /** The format a picker with these switches produces and accepts when the 12-hour clock and the
      AM/PM suffix go together. */
  function Canonical(showSeconds: bool, is12: bool): Format {
    Format(is12, showSeconds, is12)
  }

  lemma SixtyOkPad2(n: int)
    requires 0 <= n < 60
    ensures SixtyOk(Pad2(n))
  {
    Pad2Small(n);
  }

  lemma HourOkPad2(h: int, is12: bool)
    requires if is12 then 1 <= h <= 12 else 0 <= h < 24
    ensures HourOk(Pad2(h), is12)
  {
    Pad2Small(h);
  }

  /** Every displayed time is valid in the matching format, with a two-digit hour. */
  lemma DisplayValid(t: TimeOfDay, showSeconds: bool, is12: bool)
    requires t.Valid()
    ensures IsValidTime(Display(t, showSeconds, is12), Canonical(showSeconds, is12))
    ensures |Display(t, showSeconds, is12)| == 2 + TailLength(Canonical(showSeconds, is12))
  {
    var h := if is12 then Hour12(t.hour) else t.hour;
    var s := Display(t, showSeconds, is12);
    HourOkPad2(h, is12);
    SixtyOkPad2(t.minute);
    SixtyOkPad2(t.second);
    var sec := if showSeconds then ":" + Pad2(t.second) else "";
    var per := if is12 then " " + PeriodOf(t.hour) else "";
    assert s == Pad2(h) + ":" + Pad2(t.minute) + sec + per;
    assert s[..2] == Pad2(h);
    assert s[1] != ':' by { Pad2Small(h); }
    assert s[3..5] == Pad2(t.minute);
    if showSeconds {
      assert s[5..8] == sec;
      assert s[6..8] == Pad2(t.second);
    }
    if is12 {
      assert s[|s| - 3..] == per;
    }
  }
}
