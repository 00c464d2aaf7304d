/** The text-entry side of the pickers: the keystroke mask that turns whatever was typed into a
    partial or complete time, the placeholder and maximum length of the input, and the string
    built when one field is picked from the drop-down lists. */
module Digital {
  import opened JsText
  import opened TimeFormat
  import opened Codec

  // ---------------------------------------------------------------------------
  // The keystroke mask

  /** The number of typed digits from which the time is complete: HHMM, or HHMMSS with seconds. */
  function Threshold(f: Format): nat {
    if f.showSeconds then 6 else 4
  }

  /** A two-digit hour as the mask leaves it: above the clock's maximum it becomes the maximum;
      "00" on the 12-hour clock becomes "01". */
  function ClampHour(h: string, is12: bool): string
    requires |h| == 2 && AllDigits(h)
  {
    var maxHour := if is12 then 12 else 23;
    if DecValue(h) > maxHour then NumberText(maxHour)
    else if is12 && DecValue(h) == 0 then "01"
    else h
  }

  /** A two-digit minute or second as the mask leaves it: above 59 it becomes 59. */
  function Clamp59(t: string): string
    requires |t| == 2 && AllDigits(t)
  {
    if DecValue(t) > 59 then "59" else t
  }

  /** One field of the mask: the digits from `start`; a lone digit is kept as typed, a pair is
      clamped. */
  function Field(n: string, start: nat, isHour: bool, is12: bool): string
    requires AllDigits(n) && |n| > start
  {
    if |n| == start + 1 then n[start..]
    else if isHour then ClampHour(n[start..start + 2], is12)
    else Clamp59(n[start..start + 2])
  }

  /** The mask on the digits typed so far and whether a 'P' was typed. */
  function MaskDigits(n: string, hasPM: bool, f: Format): string
    requires AllDigits(n)
  {
    if |n| == 0 then ""
    else
      Field(n, 0, true, f.is12Hour) +
      (if |n| >= 3 then ":" + Field(n, 2, false, f.is12Hour) else "") +
      (if f.showSeconds && |n| >= 5 then ":" + Field(n, 4, false, f.is12Hour) else "") +
      (if f.showAmPm && |n| >= Threshold(f) then " " + (if hasPM then "PM" else "AM") else "")
  }

  /** `handleChange`'s formatting of the raw input: upper-case it, keep its digits, and lay out the
      hour, minute and (when shown) second fields, followed by " PM" when a 'P' was typed and " AM"
      otherwise once the time is complete. */
  function Masked(raw: string, f: Format): (r: string)
    ensures |r| <= GetMaxLength(f)
  {
    var input := ToUpper(raw);
    MaskDigitsLength(DigitsOf(input), 'P' in input, f);
    MaskDigits(DigitsOf(input), 'P' in input, f)
  }

  /** The formatting step of `handleChange`: upper-case the input, keep its digits, note whether an
      'A' or a 'P' was typed, and lay the digits out. */
  method FormatInput(raw: string, f: Format) returns (formatted: string)
    ensures formatted == Masked(raw, f)
  {
    var input := ToUpper(raw);
    var numbers := DigitsOf(input);
    var hasAM := 'A' in input;
    var hasPM := 'P' in input;
    formatted := FormatDigits(numbers, hasAM, hasPM, f);
  }

  /** Laying out the typed digits field by field, appending to the text as `handleChange` does. */
  method FormatDigits(numbers: string, hasAM: bool, hasPM: bool, f: Format) returns (formatted: string)
    requires AllDigits(numbers)
    ensures formatted == MaskDigits(numbers, hasPM, f)
  {
    formatted := "";
    if |numbers| == 0 {
      return;
    }
    var hour := FormatHour(numbers, f.is12Hour);
    formatted := hour;
    var minute := FormatMinutePart(numbers, f.is12Hour);
    formatted := formatted + minute;
    var second := FormatSecondPart(numbers, f);
    formatted := formatted + second;
    var suffix := FormatSuffix(numbers, hasAM, hasPM, f);
    formatted := formatted + suffix;
  }

  /** ":" and the minute once a third digit is typed. */
  method FormatMinutePart(numbers: string, is12: bool) returns (part: string)
    requires AllDigits(numbers)
    ensures part == if |numbers| >= 3 then ":" + Field(numbers, 2, false, is12) else ""
  {
    part := "";
    if |numbers| >= 3 {
      var minute := FormatPair(numbers, 2, is12);
      part := part + ":" + minute;
    }
  }

  /** ":" and the second once a fifth digit is typed, when seconds are shown. */
  method FormatSecondPart(numbers: string, f: Format) returns (part: string)
    requires AllDigits(numbers)
    ensures part == if f.showSeconds && |numbers| >= 5 then ":" + Field(numbers, 4, false, f.is12Hour) else ""
  {
    part := "";
    if f.showSeconds && |numbers| >= 5 {
      var second := FormatPair(numbers, 4, f.is12Hour);
      part := part + ":" + second;
    }
  }

  /** " PM" when a 'P' was typed and " AM" otherwise, once the time is complete and the period is
      shown. */
  method FormatSuffix(numbers: string, hasAM: bool, hasPM: bool, f: Format) returns (suffix: string)
    ensures suffix == if f.showAmPm && |numbers| >= Threshold(f) then " " + (if hasPM then "PM" else "AM") else ""
  {
    suffix := "";
    if f.showAmPm {
      var minLength := if f.showSeconds then 6 else 4;
      if |numbers| >= minLength {
        suffix := suffix + " ";
        if hasPM {
          suffix := suffix + "PM";
        } else if hasAM || (!hasAM && !hasPM) {
          suffix := suffix + "AM";
        }
      }
    }
  }

  /** The hour step: the first two digits, clamped to the clock's maximum and, on the 12-hour clock,
      "00" raised to "01"; a lone first digit is kept. */
  method FormatHour(numbers: string, is12: bool) returns (hour: string)
    requires AllDigits(numbers) && |numbers| > 0
    ensures hour == Field(numbers, 0, true, is12)
  {
    hour := Substring(numbers, 0, 2);
    SubstringField(numbers, 0, true, is12);
    if |numbers| == 1 {
      return;
    }
    var hourNum := ParseInt(hour).value;
    var maxHour := if is12 then 12 else 23;
    if hourNum > maxHour {
      hour := NumberText(maxHour);
    } else if is12 && hourNum == 0 {
      hour := "01";
    }
    TwelveText();
    hour := PadStart2(hour);
  }

  /** The minute or second step: the two digits from `start`, clamped to 59; a lone digit is kept. */
  method FormatPair(numbers: string, start: nat, is12: bool) returns (pair: string)
    requires AllDigits(numbers) && |numbers| > start
    ensures pair == Field(numbers, start, false, is12)
  {
    pair := Substring(numbers, start, start + 2);
    SubstringField(numbers, start, false, is12);
    if |numbers| == start + 1 {
      return;
    }
    var num := ParseInt(pair).value;
    if num > 59 {
      pair := "59";
    }
    pair := PadStart2(pair);
  }

  /** What `substring` and `parseInt` make of one field of typed digits. */
  lemma SubstringField(n: string, start: nat, isHour: bool, is12: bool)
    requires AllDigits(n) && |n| > start
    ensures var t := Substring(n, start, start + 2);
      (|n| == start + 1 ==> t == Field(n, start, isHour, is12)) &&
      (|n| > start + 1 ==> |t| == 2 && AllDigits(t) && ParseInt(t) == Some(DecValue(t)) && t == n[start..start + 2])
  {
    if |n| > start + 1 {
      ParseIntDigits(n[start..start + 2]);
    }
  }

  lemma TwelveText()
    ensures NumberText(12) == "12" && NumberText(23) == "23"
  {
    assert NatText(1) == "1" && NatText(2) == "2";
  }

  /** A clamped hour is a valid hour of its clock, has two digits, and is left alone by a second
      clamp. */
  lemma ClampHourValid(h: string, is12: bool)
    requires |h| == 2 && AllDigits(h)
    ensures |ClampHour(h, is12)| == 2 && AllDigits(ClampHour(h, is12))
    ensures HourOk(ClampHour(h, is12), is12)
    ensures ClampHour(ClampHour(h, is12), is12) == ClampHour(h, is12)
  {
    TwelveText();
    DecValue2(h);
    DecValue2("12");
    DecValue2("23");
    DecValue2("01");
  }

  lemma Clamp59Valid(t: string)
    requires |t| == 2 && AllDigits(t)
    ensures |Clamp59(t)| == 2 && AllDigits(Clamp59(t)) && SixtyOk(Clamp59(t))
    ensures Clamp59(Clamp59(t)) == Clamp59(t)
  {
    DecValue2(t);
    DecValue2("59");
  }

  lemma FieldShape(n: string, start: nat, isHour: bool, is12: bool)
    requires AllDigits(n) && |n| > start
    ensures var r := Field(n, start, isHour, is12);
      AllDigits(r) && (|n| == start + 1 ==> |r| == 1) && (|n| > start + 1 ==> |r| == 2) &&
      (|n| > start + 1 ==> if isHour then HourOk(r, is12) else SixtyOk(r))
  {
    if |n| > start + 1 {
      if isHour { ClampHourValid(n[start..start + 2], is12); } else { Clamp59Valid(n[start..start + 2]); }
    }
  }

  /** The mask is complete (valid under `isValidTime`) exactly when enough digits were typed. */
  lemma MaskValid(raw: string, f: Format)
    ensures IsValidTime(Masked(raw, f), f) <==> |DigitsOf(ToUpper(raw))| >= Threshold(f)
  {
    var input := ToUpper(raw);
    var n := DigitsOf(input);
    if |n| == 0 {
      EmptyIsInvalid(f);
    } else if |n| >= Threshold(f) {
      MaskComplete(n, 'P' in input, f);
    } else {
      MaskIncomplete(n, 'P' in input, f);
    }
  }

  lemma MaskComplete(n: string, hasPM: bool, f: Format)
    requires AllDigits(n) && |n| >= Threshold(f)
    ensures IsValidTime(MaskDigits(n, hasPM, f), f)
  {
    var h := Field(n, 0, true, f.is12Hour);
    var m := Field(n, 2, false, f.is12Hour);
    var sc := if f.showSeconds then Field(n, 4, false, f.is12Hour) else "";
    var p := if hasPM then "PM" else "AM";
    FieldShape(n, 0, true, f.is12Hour);
    FieldShape(n, 2, false, f.is12Hour);
    if f.showSeconds { FieldShape(n, 4, false, f.is12Hour); }
    MaskJoin(n, hasPM, f);
    JoinValid(h, m, sc, p, f);
  }

  /** A complete mask is its fields joined as `updateTime` joins them. */
  lemma MaskJoin(n: string, hasPM: bool, f: Format)
    requires AllDigits(n) && |n| >= Threshold(f)
    ensures MaskDigits(n, hasPM, f) ==
            JoinTime(Field(n, 0, true, f.is12Hour), Field(n, 2, false, f.is12Hour),
                     if f.showSeconds then Field(n, 4, false, f.is12Hour) else "", if hasPM then "PM" else "AM", f)
  {
    MaskPieces(n, hasPM, f);
  }

  lemma MaskIncomplete(n: string, hasPM: bool, f: Format)
    requires AllDigits(n) && 0 < |n| < Threshold(f)
    ensures !IsValidTime(MaskDigits(n, hasPM, f), f)
  {
    MaskPieces(n, hasPM, f);
    var s := MaskDigits(n, hasPM, f);
    var h := Field(n, 0, true, f.is12Hour);
    var m := if |n| >= 3 then ":" + Field(n, 2, false, f.is12Hour) else "";
    var sc := if f.showSeconds && |n| >= 5 then ":" + Field(n, 4, false, f.is12Hour) else "";
    FieldShape(n, 0, true, f.is12Hour);
    if |n| >= 3 { FieldShape(n, 2, false, f.is12Hour); }
    if f.showSeconds && |n| >= 5 { FieldShape(n, 4, false, f.is12Hour); }
    assert s == h + m + sc;
    assert |s| < 2 + TailLength(f);
    if |n| >= 2 {
      assert s[1] == h[1];
    }
  }

  /** The mask is empty exactly when no digit was typed. */
  lemma MaskEmpty(raw: string, f: Format)
    ensures Masked(raw, f) == "" <==> |DigitsOf(ToUpper(raw))| == 0
  {
    var input := ToUpper(raw);
    if |DigitsOf(input)| > 0 {
      MaskNonEmpty(DigitsOf(input), 'P' in input, f);
    }
  }

  /** Once a digit is typed the mask is not empty. */
  lemma MaskNonEmpty(n: string, hasPM: bool, f: Format)
    requires AllDigits(n) && |n| > 0
    ensures MaskDigits(n, hasPM, f) != ""
  {
    FieldShape(n, 0, true, f.is12Hour);
    MaskPieces(n, hasPM, f);
  }

  /** The maximum length of the input: "HH:MM", then ":SS" and " AM" when shown. */
  function GetMaxLength(f: Format): (r: nat)
    ensures r == 2 + TailLength(f)
  {
    5 + (if f.showSeconds then 3 else 0) + (if f.showAmPm then 3 else 0)
  }

  /** A valid time fits the input's maximum length, with equality for a two-digit hour. */
  lemma ValidFitsMaxLength(s: string, f: Format)
    requires IsValidTime(s, f)
    ensures |s| <= GetMaxLength(f) && (s[1] != ':' ==> |s| == GetMaxLength(f))
  {
  }

  /** The mask never produces more than the input accepts. */
  lemma MaskDigitsLength(n: string, hasPM: bool, f: Format)
    requires AllDigits(n)
    ensures |MaskDigits(n, hasPM, f)| <= GetMaxLength(f)
  {
    if |n| > 0 {
      FieldShape(n, 0, true, f.is12Hour);
      if |n| >= 3 { FieldShape(n, 2, false, f.is12Hour); }
      if f.showSeconds && |n| >= 5 { FieldShape(n, 4, false, f.is12Hour); }
    }
  }

  /** Input without digits is cleared. */
  lemma MaskNoDigits(raw: string, f: Format)
    requires forall i :: 0 <= i < |raw| ==> !IsDigit(raw[i])
    ensures Masked(raw, f) == ""
  {
    var input := ToUpper(raw);
    assert forall i :: 0 <= i < |input| ==> !IsDigit(input[i]);
    DigitsOfNone(input);
  }

  // ---------------------------------------------------------------------------
  // Re-masking

  /** The digits the mask keeps: each field after clamping, up to the last field shown. */
  function Clamped(n: string, f: Format): string
    requires AllDigits(n) && |n| > 0
  {
    Field(n, 0, true, f.is12Hour) +
    (if |n| >= 3 then Field(n, 2, false, f.is12Hour) else "") +
    (if f.showSeconds && |n| >= 5 then Field(n, 4, false, f.is12Hour) else "")
  }

  lemma ClampedShape(n: string, f: Format)
    requires AllDigits(n) && |n| > 0
    ensures var c := Clamped(n, f);
      AllDigits(c) && |c| > 0 &&
      |c| == (if |n| == 1 then 1 else if |n| == 2 then 2 else if |n| == 3 then 3
              else if !f.showSeconds || |n| == 4 then 4 else if |n| == 5 then 5 else 6) &&
      (|n| >= 2 ==> c[..2] == Field(n, 0, true, f.is12Hour)) &&
      (|n| >= 3 ==> Field(c, 2, false, f.is12Hour) == Field(n, 2, false, f.is12Hour)) &&
      (f.showSeconds && |n| >= 5 ==> Field(c, 4, false, f.is12Hour) == Field(n, 4, false, f.is12Hour))
  {
    var c := Clamped(n, f);
    var h := Field(n, 0, true, f.is12Hour);
    var m := if |n| >= 3 then Field(n, 2, false, f.is12Hour) else "";
    var sc := if f.showSeconds && |n| >= 5 then Field(n, 4, false, f.is12Hour) else "";
    FieldShape(n, 0, true, f.is12Hour);
    if |n| >= 3 { FieldShape(n, 2, false, f.is12Hour); }
    if f.showSeconds && |n| >= 5 { FieldShape(n, 4, false, f.is12Hour); }
    assert c == h + m + sc;
    if |n| >= 3 {
      assert c[2..2 + |m|] == m;
      FieldOfPiece(c, n, 2, f.is12Hour);
    }
    if f.showSeconds && |n| >= 5 {
      assert c[4..4 + |sc|] == sc;
      FieldOfPiece(c, n, 4, f.is12Hour);
    }
  }

  /** A minute or second field copied into another digit string reads the same there. */
  lemma FieldOfPiece(c: string, n: string, start: nat, is12: bool)
    requires AllDigits(n) && AllDigits(c) && |n| > start
    requires var m := Field(n, start, false, is12);
      |c| >= start + |m| && c[start..start + |m|] == m && (|n| == start + 1 <==> |c| == start + 1)
    ensures Field(c, start, false, is12) == Field(n, start, false, is12)
  {
    FieldShape(n, start, false, is12);
    if |n| > start + 1 {
      Clamp59Valid(n[start..start + 2]);
    }
  }

  /** The mask reads only the clamped digits. */
  lemma MaskOfClamped(n: string, hasPM: bool, f: Format)
    requires AllDigits(n) && |n| > 0
    ensures MaskDigits(Clamped(n, f), hasPM, f) == MaskDigits(n, hasPM, f)
  {
    var c := Clamped(n, f);
    ClampedShape(n, f);
    if |n| >= 2 {
      ClampHourValid(n[..2], f.is12Hour);
      assert Field(c, 0, true, f.is12Hour) == Field(n, 0, true, f.is12Hour);
    }
  }

  /** The mask as its four pieces. */
  lemma MaskPieces(n: string, hasPM: bool, f: Format)
    requires AllDigits(n) && |n| > 0
    ensures MaskDigits(n, hasPM, f) ==
            Field(n, 0, true, f.is12Hour) +
            (if |n| >= 3 then ":" + Field(n, 2, false, f.is12Hour) else "") +
            (if f.showSeconds && |n| >= 5 then ":" + Field(n, 4, false, f.is12Hour) else "") +
            (if f.showAmPm && |n| >= Threshold(f) then " " + (if hasPM then "PM" else "AM") else "")
  {
  }

  lemma DigitsOfSeparated(t: string)
    requires AllDigits(t)
    ensures DigitsOf(":" + t) == t
  {
    DigitsOfAppend(":", t);
    DigitsOfDigits(t);
    assert DigitsOf(":") == "";
  }

  /** The digits of the mask are the clamped digits. */
  lemma MaskDigitsText(n: string, hasPM: bool, f: Format)
    requires AllDigits(n) && |n| > 0
    ensures DigitsOf(MaskDigits(n, hasPM, f)) == Clamped(n, f)
  {
    var h := Field(n, 0, true, f.is12Hour);
    var m := if |n| >= 3 then Field(n, 2, false, f.is12Hour) else "";
    var sc := if f.showSeconds && |n| >= 5 then Field(n, 4, false, f.is12Hour) else "";
    var p := if f.showAmPm && |n| >= Threshold(f) then " " + (if hasPM then "PM" else "AM") else "";
    FieldShape(n, 0, true, f.is12Hour);
    if |n| >= 3 { FieldShape(n, 2, false, f.is12Hour); }
    if f.showSeconds && |n| >= 5 { FieldShape(n, 4, false, f.is12Hour); }
    MaskPieces(n, hasPM, f);
    DigitsOfNone(p);
    FourPieceDigits(h, m, |n| >= 3, sc, f.showSeconds && |n| >= 5, p);
  }

  /** The digits of "H", then ":M" and ":S" when present, then a suffix without digits. */
  lemma FourPieceDigits(h: string, m: string, hasM: bool, sc: string, hasS: bool, p: string)
    requires AllDigits(h) && AllDigits(m) && AllDigits(sc) && DigitsOf(p) == ""
    requires !hasM ==> m == ""
    requires !hasS ==> sc == ""
    ensures DigitsOf(h + (if hasM then ":" + m else "") + (if hasS then ":" + sc else "") + p) == h + m + sc
  {
    var m' := if hasM then ":" + m else "";
    var sc' := if hasS then ":" + sc else "";
    if hasM { DigitsOfSeparated(m); }
    if hasS { DigitsOfSeparated(sc); }
    DigitsOfAppend(h + m' + sc', p);
    DigitsOfAppend(h + m', sc');
    DigitsOfAppend(h, m');
    DigitsOfDigits(h);
    assert DigitsOf(m') == m && DigitsOf(sc') == sc;
  }

  /** The mask has a 'P' only in a " PM" suffix, and upper-casing leaves it alone. */
  lemma MaskLetters(n: string, hasPM: bool, f: Format)
    requires AllDigits(n) && |n| > 0
    ensures ('P' in MaskDigits(n, hasPM, f)) <==> (hasPM && f.showAmPm && |n| >= Threshold(f))
    ensures ToUpper(MaskDigits(n, hasPM, f)) == MaskDigits(n, hasPM, f)
  {
    var h := Field(n, 0, true, f.is12Hour);
    var m' := if |n| >= 3 then ":" + Field(n, 2, false, f.is12Hour) else "";
    var sc' := if f.showSeconds && |n| >= 5 then ":" + Field(n, 4, false, f.is12Hour) else "";
    var p := if f.showAmPm && |n| >= Threshold(f) then " " + (if hasPM then "PM" else "AM") else "";
    FieldShape(n, 0, true, f.is12Hour);
    if |n| >= 3 { FieldShape(n, 2, false, f.is12Hour); }
    if f.showSeconds && |n| >= 5 { FieldShape(n, 4, false, f.is12Hour); }
    MaskPieces(n, hasPM, f);
    var c := h + m' + sc';
    assert forall i :: 0 <= i < |c| ==> IsDigit(c[i]) || c[i] == ':';
    var s := c + p;
    assert s == MaskDigits(n, hasPM, f);
    assert 'P' in s <==> 'P' in p;
    assert forall i :: 0 <= i < |s| ==> UpperChar(s[i]) == s[i] by {
      forall i | 0 <= i < |s| ensures UpperChar(s[i]) == s[i] {
        if i < |c| { assert IsDigit(c[i]) || c[i] == ':'; } else { assert s[i] == p[i - |c|]; }
      }
    }
  }

  lemma MaskText(n: string, hasPM: bool, f: Format)
    requires AllDigits(n) && |n| > 0
    ensures DigitsOf(MaskDigits(n, hasPM, f)) == Clamped(n, f)
    ensures ('P' in MaskDigits(n, hasPM, f)) <==> (hasPM && f.showAmPm && |n| >= Threshold(f))
    ensures ToUpper(MaskDigits(n, hasPM, f)) == MaskDigits(n, hasPM, f)
  {
    MaskDigitsText(n, hasPM, f);
    MaskLetters(n, hasPM, f);
  }

  /** Typing the mask's own output back in changes nothing. */
  lemma MaskIdempotent(raw: string, f: Format)
    ensures Masked(Masked(raw, f), f) == Masked(raw, f)
  {
    var input := ToUpper(raw);
    var n := DigitsOf(input);
    var s := Masked(raw, f);
    if |n| == 0 {
      assert ToUpper("") == "";
      return;
    }
    MaskText(n, 'P' in input, f);
    ClampedShape(n, f);
    MaskOfClamped(n, 'P' in s, f);
    var c := Clamped(n, f);
    if !(f.showAmPm && |n| >= Threshold(f)) {
      assert |c| >= Threshold(f) <==> |n| >= Threshold(f);
      assert MaskDigits(n, 'P' in s, f) == MaskDigits(n, 'P' in input, f);
    }
  }

  // ---------------------------------------------------------------------------
  // Placeholder

  /** `getPlaceholder`: a non-empty custom placeholder wins; otherwise dashes in the shape of the
      input, "--:--", then ":--" and " --" when seconds and the period are shown. */
  function GetPlaceholder(custom: string, f: Format): (r: string)
    ensures custom != "" ==> r == custom
    ensures custom == "" ==> |r| == GetMaxLength(f)
  {
    if custom != "" then custom
    else "--:--" + (if f.showSeconds then ":--" else "") + (if f.showAmPm then " --" else "")
  }

  // ---------------------------------------------------------------------------
  // Picking a field from the lists

  /** `a || b` on strings. */
  function Or(a: string, b: string): string {
    if a != "" then a else b
  }

  /** An optional argument `x || fallback` (an absent argument is undefined). */
  function ArgOr(x: Option<string>, fallback: string): string {
    if x.Some? then Or(x.value, fallback) else fallback
  }

  /** Joining the parts: "H:M", then ":S" and " P" when shown. */
  function JoinTime(h: string, m: string, s: string, p: string, f: Format): string {
    h + ":" + m + (if f.showSeconds then ":" + s else "") + (if f.showAmPm then " " + p else "")
  }

  /** `updateTime`: every part not passed (or passed empty) is kept from the current text, with
      "00" for a missing hour, minute or second and "AM" for a missing period. */
  function UpdatedTime(current: string, newHour: Option<string>, newMinute: Option<string>,
                       newSecond: Option<string>, newPeriod: Option<string>, f: Format): (r: string)
    ensures newHour.Some? && newHour.value != "" ==>
              |r| > |newHour.value| && r[..|newHour.value|] == newHour.value && r[|newHour.value|] == ':'
    ensures f.showAmPm && newPeriod.Some? && newPeriod.value != "" ==>
              |r| > |newPeriod.value| && r[|r| - |newPeriod.value|..] == newPeriod.value &&
              r[|r| - |newPeriod.value| - 1] == ' '
  {
    var parts := GetTimes(current, f.showSeconds);
    JoinTime(ArgOr(newHour, Or(parts.hour, "00")), ArgOr(newMinute, Or(parts.minute, "00")),
             if f.showSeconds then ArgOr(newSecond, Or(parts.second, "00")) else "",
             if f.showAmPm then ArgOr(newPeriod, Or(parts.period, "AM")) else "", f)
  }

  /** Splitting a joined time gives its parts back. */
  lemma JoinSplit(h: string, m: string, s: string, p: string, f: Format)
    requires NoSep(h, IsTimeSep) && NoSep(m, IsTimeSep) && NoSep(s, IsTimeSep) && NoSep(p, IsTimeSep)
    requires ToUpper(p) == p
    ensures GetTimes(JoinTime(h, m, s, p, f), f.showSeconds) ==
            Parts(h, m, if f.showSeconds then s else "", if f.showAmPm then p else "")
  {
    FieldPieces(h, m, s, p, f.showSeconds, f.showAmPm);
    assert ToUpper("") == "";
  }

  /** The parts getTimes returns have no separators and an upper-case period. */
  lemma PartsClean(time: string, showSeconds: bool)
    ensures var q := GetTimes(time, showSeconds);
      NoSep(q.hour, IsTimeSep) && NoSep(q.minute, IsTimeSep) && NoSep(q.second, IsTimeSep) &&
      NoSep(q.period, IsTimeSep) && ToUpper(q.period) == q.period
  {
    SplitPiecesNoSep(time, IsTimeSep);
    UpperKeepsNoSep(ItemOr(SplitWhere(time, IsTimeSep), if showSeconds then 3 else 2));
  }

  /** Upper-casing introduces no ':' and no whitespace. */
  lemma UpperKeepsNoSep(raw: string)
    requires NoSep(raw, IsTimeSep)
    ensures NoSep(ToUpper(raw), IsTimeSep)
  {
    forall i | 0 <= i < |raw| ensures !IsTimeSep(ToUpper(raw)[i]) {
      assert !IsTimeSep(raw[i]);
    }
  }

  /** An argument `updateTime` can take: absent, or a non-empty part without separators. */
  predicate CleanArg(x: Option<string>) {
    x.Some? ==> x.value != "" && NoSep(x.value, IsTimeSep)
  }

  /** Picking parts replaces exactly the parts passed and keeps the other shown parts, defaulted
      when absent; seconds and period are present exactly when shown. */
  lemma PickParts(current: string, newHour: Option<string>, newMinute: Option<string>,
                  newSecond: Option<string>, newPeriod: Option<string>, f: Format)
    requires CleanArg(newHour) && CleanArg(newMinute) && CleanArg(newSecond) && CleanArg(newPeriod)
    requires newPeriod.Some? ==> ToUpper(newPeriod.value) == newPeriod.value
    ensures var q := GetTimes(current, f.showSeconds);
      GetTimes(UpdatedTime(current, newHour, newMinute, newSecond, newPeriod, f), f.showSeconds) ==
      Parts(ArgOr(newHour, Or(q.hour, "00")), ArgOr(newMinute, Or(q.minute, "00")),
            if f.showSeconds then ArgOr(newSecond, Or(q.second, "00")) else "",
            if f.showAmPm then ArgOr(newPeriod, Or(q.period, "AM")) else "")
  {
    var q := GetTimes(current, f.showSeconds);
    var h := ArgOr(newHour, Or(q.hour, "00"));
    var m := ArgOr(newMinute, Or(q.minute, "00"));
    var s := if f.showSeconds then ArgOr(newSecond, Or(q.second, "00")) else "";
    var p := if f.showAmPm then ArgOr(newPeriod, Or(q.period, "AM")) else "";
    PartsClean(current, f.showSeconds);
    PickedClean(q, newHour, newMinute, newSecond, newPeriod, f);
    assert UpdatedTime(current, newHour, newMinute, newSecond, newPeriod, f) == JoinTime(h, m, s, p, f);
    JoinSplit(h, m, s, p, f);
  }

  /** The parts `updateTime` joins from clean current parts have no separators and an upper-case
      period. */
  lemma PickedClean(q: Parts, newHour: Option<string>, newMinute: Option<string>,
                    newSecond: Option<string>, newPeriod: Option<string>, f: Format)
    requires NoSep(q.hour, IsTimeSep) && NoSep(q.minute, IsTimeSep) && NoSep(q.second, IsTimeSep)
    requires NoSep(q.period, IsTimeSep) && ToUpper(q.period) == q.period
    requires CleanArg(newHour) && CleanArg(newMinute) && CleanArg(newSecond) && CleanArg(newPeriod)
    requires newPeriod.Some? ==> ToUpper(newPeriod.value) == newPeriod.value
    ensures var p := if f.showAmPm then ArgOr(newPeriod, Or(q.period, "AM")) else "";
      NoSep(ArgOr(newHour, Or(q.hour, "00")), IsTimeSep) && NoSep(ArgOr(newMinute, Or(q.minute, "00")), IsTimeSep) &&
      NoSep(if f.showSeconds then ArgOr(newSecond, Or(q.second, "00")) else "", IsTimeSep) &&
      NoSep(p, IsTimeSep) && ToUpper(p) == p
  {
    ArgClean(newHour, Or(q.hour, "00"));
    ArgClean(newMinute, Or(q.minute, "00"));
    ArgClean(newSecond, Or(q.second, "00"));
    ArgClean(newPeriod, Or(q.period, "AM"));
    assert ToUpper("AM") == "AM";
    assert ToUpper("") == "";
  }

  lemma ArgClean(x: Option<string>, fallback: string)
    requires CleanArg(x) && NoSep(fallback, IsTimeSep)
    ensures NoSep(ArgOr(x, fallback), IsTimeSep)
  {
  }

  /** Picking an hour, then a minute, then a second, then a period from the lists (hours 01..12 or
      00..23, minutes and seconds 00..59, AM or PM) yields a valid time, whatever the text was. */
  lemma PickEveryPart(current: string, h: string, m: string, s: string, p: string, f: Format)
    requires |h| == 2 && HourOk(h, f.is12Hour) && SixtyOk(m) && SixtyOk(s)
    requires p == "AM" || p == "PM"
    ensures var t1 := UpdatedTime(current, Some(h), None, None, None, f);
      var t2 := UpdatedTime(t1, None, Some(m), None, None, f);
      var t3 := UpdatedTime(t2, None, None, Some(s), None, f);
      IsValidTime(UpdatedTime(t3, None, None, None, Some(p), f), f)
  {
    var t1 := UpdatedTime(current, Some(h), None, None, None, f);
    var t2 := UpdatedTime(t1, None, Some(m), None, None, f);
    var t3 := UpdatedTime(t2, None, None, Some(s), None, f);
    PickThree(current, h, m, s, f);
    var q3 := GetTimes(t3, f.showSeconds);
    var s' := if f.showSeconds then Or(q3.second, "00") else "";
    assert SixtyOk("00");
    assert UpdatedTime(t3, None, None, None, Some(p), f) == JoinTime(h, m, s', if f.showAmPm then p else "", f);
    JoinValid(h, m, s', if f.showAmPm then p else "", f);
  }

  /** Picking an hour, a minute and a second in turn leaves exactly those three in the text. */
  lemma PickThree(current: string, h: string, m: string, s: string, f: Format)
    requires |h| == 2 && HourOk(h, f.is12Hour) && SixtyOk(m) && SixtyOk(s)
    ensures var t1 := UpdatedTime(current, Some(h), None, None, None, f);
      var t2 := UpdatedTime(t1, None, Some(m), None, None, f);
      var q := GetTimes(UpdatedTime(t2, None, None, Some(s), None, f), f.showSeconds);
      q.hour == h && q.minute == m && (f.showSeconds ==> q.second == s)
  {
    assert AllDigits(h) && AllDigits(m) && AllDigits(s);
    DigitsNoSep(h);
    DigitsNoSep(m);
    DigitsNoSep(s);
    var t1 := UpdatedTime(current, Some(h), None, None, None, f);
    var t2 := UpdatedTime(t1, None, Some(m), None, None, f);
    PickParts(current, Some(h), None, None, None, f);
    PickParts(t1, None, Some(m), None, None, f);
    PickParts(t2, None, None, Some(s), None, f);
  }

  /** Parts taken from the lists (hours 01..12 or 00..23, minutes and seconds 00..59, AM or PM)
      always join into a valid time. */
  lemma JoinValid(h: string, m: string, s: string, p: string, f: Format)
    requires |h| == 2 && HourOk(h, f.is12Hour) && SixtyOk(m) && (f.showSeconds ==> SixtyOk(s))
    requires f.showAmPm ==> p == "AM" || p == "PM"
    ensures IsValidTime(JoinTime(h, m, s, p, f), f)
  {
    var t := JoinTime(h, m, s, p, f);
    var sc := if f.showSeconds then ":" + s else "";
    var pp := if f.showAmPm then " " + p else "";
    assert t == h + ":" + m + sc + pp;
    assert t[..2] == h && t[2] == ':' && t[3..5] == m;
    if f.showSeconds { assert t[5] == ':' && t[6..8] == s; }
    if f.showAmPm { assert t[|t| - 3..] == pp; }
  }

  /** Picking a minute into an empty 12-hour input yields hour "00", which the 12-hour check rejects. */
  lemma PickIntoEmpty12Hour()
    ensures UpdatedTime("", None, Some("30"), None, None, Format(true, false, true)) == "00:30 AM"
    ensures !IsValidTime("00:30 AM", Format(true, false, true))
  {
    assert GetTimes("", false) == Parts("", "", "", "");
  }
}
