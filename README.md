# React-TimePicker-Arc: the time codec, input masks, clock face and pickers in Dafny

React-TimePicker-Arc provides a digital time picker (the standalone `TimePicker` component and the
`useTimePicker` hook) and an analog clock picker (`ClockPicker` with `useClockPicker` and the `Clock`
face driven by `useClock`). Callers hand in a value of any of six encodings. Examples are a time
string, an ISO timestamp, a US date-time string, unix seconds, unix milliseconds and a `Date`. The
pickers turn that value into a canonical display string `HH:MM[:SS][ AM|PM]`. The user edits it by
typing, which goes through a keystroke mask, or by picking from lists or from the clock face. The
pickers write every edit back in the caller's encoding.

This project models that core and proves properties of it:

- `JsText` holds the JavaScript string and number operations the code relies on. These are `trim`,
  `toUpperCase`, digit stripping, `padStart`, `Number#toString`, `parseInt` (with and without a
  radix), `split` and `substring`.
- `JsDate` holds JavaScript `Date` values. A date is either invalid or a local day plus a time of
  day. `setHours` is written out. Everything the host supplies is a field of a `Host` value: today's
  date, `new Date(ms)`, `new Date(text)`, `getTime`, `toISOString` and the calendar getters.
- `TimeFormat` holds the validity pattern `isValidTime` and the canonical display of a time of day.
- `Codec` models the shared helpers in `src/utils/helpers.ts`:
  - `detectReturnType`;
  - `parseTimeFromValue`, whose anchored time-only regular expression is a staged matcher;
  - `convertTimeToReturnType`, `getTimes` and `parseClockTimeFromValue`;
  - `convertClockTimeToReturnType`.
- `Digital` holds the pure half of the digital pickers: the keystroke mask of `handleChange`,
  `getMaxLength`, `getPlaceholder` and the part-joining rule of `updateTime`. The mask is written
  as the step-by-step methods of the source, and each method is proved against a mask function.
- `Placement` holds `handleSetPosition`: the hooks' rule, and the standalone component's rule with
  its extra cramped-document branch.
- `Callbacks` records what the pickers report. A `notices` sequence collects each `setValue` and
  `onTimeChange` call in order.
- `ClockFace` holds `useClock`:
  - the needle's rotation rule `getShortestAngle`;
  - the tick labels `getTime`;
  - the snapping of a click angle to an hour or minute;
  - the `Clock` class, whose fields are the hook's state and whose methods are its handlers and
    effects.
- `TimePickers` holds the `Picker` class. It models both the standalone component (including its
  own diverging copy of `parseTimeFromValue`) and the `useTimePicker` hook.
- `ClockPickers` holds the clock picker's 12-hour mask and validity check, and the `ClockPicker`
  class for `useClockPicker`.

React state is modelled as class fields. Each handler is a method that changes only the fields the
handler sets. A handler sees the state of the render it was created in: state it sets is read
unchanged later in the same handler, as the source reads it. Effects are methods called at the
moment React would run them.

Where the code's own comments state an intent that the code does not meet, the model follows the
code and proves where the two part:

- src/utils/helpers.ts:99 says a time without AM/PM is taken as a 24-hour time. On the 12-hour
  clock, the code folds the hour and then drops the AM/PM it derived (see Findings).
- src/utils/helpers.ts:310 says such a time is converted from 24-hour to 12-hour. The clock face's
  reader puts every period-less time in the morning (see Findings).
- src/hooks/useClock.ts:53 calls `getShortestAngle` the shortest rotation path. It is that only
  while its truncating remainder has a non-negative operand (see Findings).
- src/utils/helpers.ts:197, 219 and 238 say the converter keeps the original's date part. It does so
  for ISO strings, datetime strings and dates (`Codec.IsoRoundTrip`,
  `Codec.DatetimeStringRoundTrip`, `Codec.DateObjectRoundTrip`). The two unix encodings always set
  the time on today's date and ignore the original value (`Codec.UnixIgnoresOriginal`). A unix value
  is therefore read back as the same time of day, but not as the same instant.

Other behaviour of the code that the model keeps:

- The unix round trips hold only for a host whose `new Date(ms)` inverts `getTime()`, and, for
  seconds, whose time zone offset is whole seconds.
- The clock's hour text entry sets the hour to 0 when the text is emptied
  (`ClockFace.Clock.HandleHourInputChange`), and 0 is then reported invalid.
- The standalone `TimePicker.tsx` repeats `detectReturnType`, `convertTimeToReturnType` and
  `getTimes` identically to the shared helpers, so each is defined once. Its `parseTimeFromValue`
  differs: time-only text is returned trimmed but unparsed. It is modelled separately as
  `TimePickers.ParseTimeFromValueLocal`.

The findings below are proved about the code as written. Everything else in the model uses the
corrected definitions:

- The `Clock` needle uses `ClockFace.ShortestAngle`.
- The hook-based pickers read values with `Codec.ParseTimeFromValueCorrected`.
- The clock reads values with `Codec.ParseClockTimeFromValueCorrected`.

## Model

| member | source | states |
|---|---|---|
| JsText.TrimStart | src/utils/helpers.ts:49 | The result is a suffix of the input that is empty or starts with a non-space, and every character removed is whitespace. |
| JsText.TrimEnd | src/utils/helpers.ts:49 | The result is a prefix of the input that is empty or ends with a non-space, and every character removed is whitespace. |
| JsText.TrimBlank | src/utils/helpers.ts:49 | `value.trim() === ""` holds exactly when every character of the value is whitespace. |
| JsText.ToUpper | src/utils/helpers.ts:97 | ASCII `toUpperCase` (see Left out): it keeps the length and upper-cases each character in place. |
| JsText.ToUpperIdempotent | src/TimePicker.tsx:467 | Upper-casing an upper-cased input changes nothing. |
| JsText.DigitsOf | src/TimePicker.tsx:469 | `replace(/[^0-9]/g, "")` leaves only digits and never lengthens the text. |
| JsText.DigitsOfAppend | src/TimePicker.tsx:469 | The digits of a concatenation are the digits of its parts, concatenated. |
| JsText.NatText | src/utils/helpers.ts:39 | `n.toString()` of a natural number is non-empty decimal digits, one character exactly below 10. |
| JsText.DecValueNatText | src/utils/helpers.ts:39 | The decimal value of `n.toString()` is `n`. |
| JsText.TenDigits | src/utils/helpers.ts:39 | A non-negative number's text has ten characters exactly when it lies in [10^9, 10^10). |
| JsText.PadStart2 | src/utils/helpers.ts:135-137 | `padStart(2, "0")` leaves text of two or more characters alone and pads shorter text to two. |
| JsText.Pad2Small | src/utils/helpers.ts:135-137 | A field below 100 is written as two digits, tens then units, whose value is the field. |
| JsText.DigitRun | src/utils/helpers.ts:184 | `parseInt` reads the longest prefix of radix digits: every character before the stop is a digit, the character at the stop is not. |
| JsText.ParseIntDigits | src/utils/helpers.ts:184 | `parseInt` of a digit string, with or without radix 10, is its decimal value. |
| JsText.ParseIntPad2 | src/utils/helpers.ts:190 | `parseInt` reads a zero-padded field back as the field. |
| JsText.Split | src/utils/helpers.ts:180 | A split always yields at least one piece. |
| JsText.SplitAt | src/utils/helpers.ts:180 | Splitting at a first separator yields the text before it, followed by the split of the rest. |
| JsText.SplitWithout | src/utils/helpers.ts:182 | Text without the separator splits into itself alone. |
| JsText.SplitCons | src/utils/helpers.ts:264 | For `/[:\s]/`, a separator-free piece and a separator come off the front of a split as that piece. |
| JsText.SplitPiecesNoSep | src/utils/helpers.ts:264 | No piece of a split contains a separator. |
| JsText.Substring | src/TimePicker.tsx:485 | `substring(start, end)` is at most `end - start` characters long. |
| JsDate.Tod | src/utils/helpers.ts:124-126 | `getHours`, `getMinutes` and `getSeconds` of a valid date are in range. |
| JsDate.SetHours | src/utils/helpers.ts:114 | `setHours` gives a valid date exactly when the date was valid and every field is a number. |
| JsDate.SetHoursInRange | src/utils/helpers.ts:114 | Setting an in-range time keeps the local day, and the getters read that time back. |
| JsDate.TodOfMs | src/utils/helpers.ts:124-126 | The hour, minute and second can be recovered from the milliseconds since midnight. |
| JsDate.Now | src/utils/helpers.ts:113 | `new Date()` is a valid date. |
| TimeFormat.EmptyIsInvalid | src/TimePicker.tsx:559 | `isValidTime("")` is false in every format. |
| TimeFormat.IsValidTime | src/TimePicker.tsx:558-586 | A valid time is one character shorter than `getMaxLength` at most, and starts with a digit. On the 12-hour clock its hour always has two digits. |
| TimeFormat.HourOkPad2 | src/TimePicker.tsx:563-569 | A padded 12-hour hour 1..12, or 24-hour hour 0..23, matches the hour alternative. |
| TimeFormat.SixtyOkPad2 | src/TimePicker.tsx:572 | A padded minute or second 0..59 matches `[0-5][0-9]`. |
| TimeFormat.DisplayValid | src/utils/helpers.ts:129-147 | Every canonical display is accepted by `isValidTime` in the matching format and has exactly the maximum length. |
| TimeFormat.Display | src/utils/helpers.ts:124-147 | A valid time of day is displayed at the full length of its format. On the 12-hour clock the display ends with a space and the hour's period. |
| Codec.DetectReturnType | src/utils/helpers.ts:32-69 | Total. "unix-seconds" exactly for numbers of ten characters, and "unix-milliseconds" exactly for other numbers and NaN. A `Date` gives "date-object". "iso-string" exactly for strings with "T" and "-". "datetime-string" exactly for non-ISO strings with "/" and one of "AM", "PM", ":". Null, undefined and blank strings give "time-string". |
| Codec.MatchTimeOnly | src/utils/helpers.ts:91-92 | A match starts with its one- or two-digit hour, then ':', then its two-character minute. |
| Codec.MatchRendersInput | src/utils/helpers.ts:91-92 | Whatever the time-only pattern matches is a well-formed set of groups that renders back to exactly the matched text. |
| Codec.MatchOfRender | src/utils/helpers.ts:91-92 | Conversely, every well-formed rendering is matched, with the same groups. |
| Codec.NoSlashInTimeOnly | src/utils/helpers.ts:91-92 | No text the time-only pattern matches contains a '/'. |
| Codec.RenderNoSlash | src/utils/helpers.ts:91-92 | A well-formed match renders to a text without '/'. |
| Codec.ResolveDate | src/utils/helpers.ts:77-120 | No date is built exactly for null, undefined and blank strings. |
| Codec.ResolveRendered | src/utils/helpers.ts:93-114 | A time-only string is set on today's date at its hour, minute and second (0 when absent). |
| Codec.ResolveUnmatched | src/utils/helpers.ts:115-117 | A non-blank string that is not time-only goes to the host's date parser. |
| Codec.ShowDate | src/utils/helpers.ts:122-147 | An invalid date gives "". A valid one gives a string valid in the display's format, of full length. |
| Codec.ParseTimeFromValue | src/utils/helpers.ts:72-152 | "" for null, undefined and blank input. Otherwise "" or a canonical string: two-digit hour and minute, ":SS" exactly with seconds, " AM"/" PM" exactly on the 12-hour clock. |
| Codec.ParseTimeFromValueCorrected | src/utils/helpers.ts:99-105 | The same guarantees, with a period-less time read as a 24-hour time on both clocks. |
| Codec.DisplayIsRender | src/utils/helpers.ts:135-145 | A canonical display is the rendering of well-formed time-only groups. |
| Codec.ResolveDisplay | src/utils/helpers.ts:91-114 | A canonical display is read as today at its own hour and minute, with its seconds when shown. |
| Codec.ParseDisplayRoundTrip | src/utils/helpers.ts:72-152 | Parsing a canonical display gives it back unchanged, as written and corrected. |
| Codec.ParseIsDisplay | src/utils/helpers.ts:122-147 | Every non-empty output is the display of the resolved date's local time of day. |
| Codec.ParseIdempotent | src/utils/helpers.ts:72-152 | Parsing the output of a parse gives the same output, as written and corrected. |
| Codec.ParseCorrectionScope | src/utils/helpers.ts:99-105 | As written and corrected agree except on period-less time-only strings on the 12-hour clock. |
| Codec.PeriodlessHour | src/utils/helpers.ts:99-105 | On the 12-hour clock, a period-less 24-hour time is shown as written with the folded hour as if it were AM. The corrected reading shows the typed time. |
| Codec.PeriodlessHourDiffers | src/utils/helpers.ts:99-105 | Those two readings differ exactly for hours 0 and 13..23. |
| Codec.PeriodlessExamples | src/utils/helpers.ts:99-105 | As written, "13:00" shows as "01:00 AM" and "00:30" as "12:30 PM". Corrected, they show as "01:00 PM" and "12:30 AM". |
| Codec.TwelveHourRead | src/utils/helpers.ts:106-110 | A 12-hour display with its period is read as the same time of day on either clock. |
| Codec.ExplicitPeriodExamples | src/utils/helpers.ts:106-110 | "12:00 AM" stays "12:00 AM" on the 12-hour clock and is "00:00" on the 24-hour clock. "01:00 PM" is "13:00" there. |
| Codec.Hour12Period | src/utils/helpers.ts:129-133 | Folding an hour to 12-hour form with its period and unfolding it with PM+12 / 12AM→0 gives the hour back. |
| Codec.DisplayPeriod | src/utils/helpers.ts:143-145 | A 12-hour display ends with the period of its hour. |
| Codec.DisplayExamples | src/utils/helpers.ts:135-145 | Concrete displays at midnight, noon and afternoon on both clocks. |
| Codec.EmptyFor | src/utils/helpers.ts:161-175 | An empty time is "" for the three string types, 0 for both unix types and null for a date object. |
| Codec.ConvertTimeToReturnType | src/utils/helpers.ts:155-254 | Empty text gives the empty value of the encoding. "time-string" returns the text. "datetime-string" with an original containing "/" returns the original's part before its first space, a space and the text. Each encoding has a round-trip lemma: `DateObjectRoundTrip`, `IsoRoundTrip`, `DatetimeStringRoundTrip`, `UnixMillisecondsRoundTrip`, `UnixSecondsRoundTrip`. |
| Codec.ReadFields | src/utils/helpers.ts:178-186 | An empty time reads a NaN hour. A time with neither a space nor a ':' reads a NaN minute and second 0. |
| Codec.Encode | src/utils/helpers.ts:188-253 | "time-string" is the text. ISO and datetime outputs are strings. Both unix outputs are numbers, NaN exactly when a field is NaN. "date-object" is a `Date`, valid exactly when every field is a number and the original is not an invalid date. |
| Codec.SplitDisplaySpace | src/utils/helpers.ts:179-181 | A display contains a space exactly on the 12-hour clock, and splits there into clock part and period. |
| Codec.SplitClockPart | src/utils/helpers.ts:182 | The clock part splits at ':' into the padded hour, minute and (when shown) second. |
| Codec.DisplayTimePeriod | src/utils/helpers.ts:179-181 | The converter's `[time, period]` of a display are its clock part and its period ("" on the 24-hour clock). |
| Codec.ClockPartFields | src/utils/helpers.ts:182-184 | The converter's `parseInt` of the clock part's pieces reads the shown hour, minute and second. |
| Codec.ReadFieldsDisplay | src/utils/helpers.ts:179-190 | The 24-hour hour, minute and second the converter reads from a display are the displayed time (second 0 when hidden). |
| Codec.EncodeAt | src/utils/helpers.ts:188-190 | The converter's date is the base day at the displayed time, and its getters read that time back. |
| Codec.EncodeDisplay | src/utils/helpers.ts:179-190 | A display is encoded with exactly the fields it shows. |
| Codec.ShowMoment | src/utils/helpers.ts:85-86 | A date at a displayed time is parsed back to that display. |
| Codec.DateObjectRoundTrip | src/utils/helpers.ts:237-245 | "date-object" output is a `Date` that parses back to the display, for any original other than an invalid date. It lies on the original's day, or on today when the original is not a `Date`. |
| Codec.UnixMillisecondsRoundTrip | src/utils/helpers.ts:234-235 | "unix-milliseconds" output parses back to the display when `new Date(ms)` inverts `getTime` and the number does not have ten digits. |
| Codec.UnixSecondsRoundTrip | src/utils/helpers.ts:231-232 | "unix-seconds" output parses back to the display when, in addition, the offset is whole seconds and the number has ten digits. |
| Codec.IsoRoundTrip | src/utils/helpers.ts:196-210 | "iso-string" output parses back to the display for any original, when the host's ISO text is read back by its parser. The text reads as a date on the ISO original's day, or on today when the original has no "T". |
| Codec.IsoReadOnDate | src/utils/helpers.ts:198-206 | The ISO text of the display's time set on any valid date parses back to the display. |
| Codec.DatetimeStringRoundTrip | src/utils/helpers.ts:212-229 | "datetime-string" output is the original's date part (or today's `MM/DD/YYYY`), a space and the display. It parses back to the display when that date part contains a '/' and the host's parser reads the text at its time. |
| Codec.UnixIgnoresOriginal | src/utils/helpers.ts:231-235 | Both unix encodings are the same for every original value. |
| Codec.FieldPieces | src/utils/helpers.ts:263-264 | `split(/[:\s]/)` of "H:M[:S][ P]" with separator-free fields yields exactly those fields. |
| Codec.DisplayPieces | src/utils/helpers.ts:263-264 | The pieces of a display are its padded hour, minute, second (when shown) and period (on the 12-hour clock). |
| Codec.GetTimesDisplay | src/utils/helpers.ts:256-277 | `getTimes` of a display returns exactly its displayed hour, minute, second and period. |
| Codec.GetTimes | src/utils/helpers.ts:256-277 | Without seconds, the second is "". The period is always upper-case already. |
| Codec.ClockOfDate | src/utils/helpers.ts:338-347 | A valid date gives an hour 1..12, a minute 0..59 and AM or PM. |
| Codec.ParseClockTimeFromValue | src/utils/helpers.ts:280-352 | Blank, NaN and invalid-date input gives the 12:00 AM default. |
| Codec.ParseClockTimeFromValueCorrected | src/utils/helpers.ts:306-319 | The same defaults, with a period-less time keeping its afternoon. |
| Codec.ClockRendered | src/utils/helpers.ts:303-319 | A trimmed time-only string is read by its groups. |
| Codec.ClockOfTimeOnly | src/utils/helpers.ts:303-319 | Any text the time-only pattern matches is read by its groups, without building a date. |
| Codec.ConvertClockTimeToReturnType | src/utils/helpers.ts:372-379 | "time-string" gives "HH:MM PERIOD" with both fields zero-padded. |
| Codec.ClockTextIsRender | src/utils/helpers.ts:373-375 | The clock's text is the rendering of time-only groups with a period. |
| Codec.ClockTimeStringRoundTrip | src/utils/helpers.ts:373-379 | The clock's time string reads back as the same hour, minute and period, as written and corrected. |
| Codec.Clock24Inverse | src/utils/helpers.ts:364-366 | For a dial time, the 24-hour hour is in 0..23 and folds back to the same hour and period. |
| Codec.ClockDateEncode | src/utils/helpers.ts:364-370 | A clock time written as a `Date` is the original's day (or today) at that 24-hour time. |
| Codec.ClockDateObjectRoundTrip | src/utils/helpers.ts:422-430 | A dial time written as a `Date` reads back as the same hour, minute and period. |
| Codec.ClockPeriodless | src/utils/helpers.ts:310-317 | As written a period-less 24-hour time is read as its 12-hour hour with AM. Corrected it gets its own period, agreeing with the reading of that time as a date. |
| Codec.ClockPeriodlessExamples | src/utils/helpers.ts:310-317 | "13:00" reads as 1:00 AM and "12:00" as 12:00 AM as written; corrected, 1:00 PM and 12:00 PM. |
| Digital.FormatInput | src/hooks/useTimePicker.ts:140-218 | The mask of `handleChange` is the mask function on the upper-cased digits. |
| Digital.FormatDigits | src/hooks/useTimePicker.ts:157-218 | Appending the fields step by step gives the mask of the typed digits. |
| Digital.FormatHour | src/hooks/useTimePicker.ts:157-173 | One digit is kept. Two digits are clamped to 12 or 23, and "00" on the 12-hour clock becomes "01". |
| Digital.FormatMinutePart | src/hooks/useTimePicker.ts:175-189 | From a third digit on, ":" and the clamped minute are appended. |
| Digital.FormatSecondPart | src/hooks/useTimePicker.ts:191-205 | With seconds, from a fifth digit on, ":" and the clamped second are appended. |
| Digital.FormatPair | src/hooks/useTimePicker.ts:177-188 | A minute or second pair above 59 becomes "59". A lone digit is kept. |
| Digital.FormatSuffix | src/hooks/useTimePicker.ts:208-218 | With AM/PM shown and the time complete, " PM" is appended when a 'P' was typed and " AM" otherwise. |
| Digital.SubstringField | src/TimePicker.tsx:485-490 | `substring` and `parseInt` read a field as its two digits and their value, or as a lone last digit. |
| Digital.ClampHourValid | src/TimePicker.tsx:489-497 | A clamped hour has two digits, is a valid hour of its clock, and is fixed by clamping again. |
| Digital.Clamp59Valid | src/TimePicker.tsx:508-513 | A clamped minute or second has two digits, is in 00..59, and is fixed by clamping again. |
| Digital.FieldShape | src/TimePicker.tsx:483-531 | Each field is digits. A lone digit stays one character, and a pair becomes a valid two-digit field. |
| Digital.MaskValid | src/TimePicker.tsx:466-586 | The masked text passes `isValidTime` exactly when at least four digits (six with seconds) were typed. |
| Digital.MaskComplete | src/TimePicker.tsx:466-586 | With enough digits the mask is valid. |
| Digital.MaskJoin | src/TimePicker.tsx:483-544 | A complete mask is its clamped fields joined as `updateTime` joins them. |
| Digital.MaskIncomplete | src/TimePicker.tsx:466-586 | With some but too few digits the mask is invalid. |
| Digital.MaskEmpty | src/TimePicker.tsx:475-480 | The mask is empty exactly when no digit was typed. |
| Digital.MaskNoDigits | src/TimePicker.tsx:475-480 | Input without digits clears the text. |
| Digital.Masked | src/hooks/useTimePicker.ts:140-218 | The mask never exceeds `getMaxLength`. |
| Digital.ValidFitsMaxLength | src/hooks/useTimePicker.ts:75-80 | A valid time fits `getMaxLength`, exactly when its hour has two digits. |
| Digital.MaskDigitsText | src/TimePicker.tsx:483-531 | The digits of the mask are the typed digits after clamping, cut after the last field shown. |
| Digital.MaskIdempotent | src/TimePicker.tsx:466-544 | Masking the mask's own output changes nothing. |
| Digital.GetPlaceholder | src/hooks/useTimePicker.ts:66-73 | A custom placeholder is used as given. The default one is exactly as long as `getMaxLength`. |
| Digital.GetMaxLength | src/hooks/useTimePicker.ts:75-80 | The maximum length is that of a valid time with a two-digit hour in the same format. |
| Digital.JoinSplit | src/TimePicker.tsx:425-431 | `getTimes` of a joined time gives back the parts that are shown. |
| Digital.PartsClean | src/utils/helpers.ts:256-277 | The parts `getTimes` returns contain no separator, and the period is upper-case. |
| Digital.PickParts | src/TimePicker.tsx:408-431 | After `updateTime` each part passed is the new part. A part not passed keeps its current value, or defaults to "00" or "AM". Seconds and period are present exactly when shown. |
| Digital.UpdatedTime | src/TimePicker.tsx:414-432 | A picked hour starts the new text, followed by ':'. A picked period ends it, after a space, when AM/PM is shown. |
| Digital.PickThree | src/TimePicker.tsx:408-432 | Picking an hour, a minute and a second in turn leaves exactly those three in the text. |
| Digital.PickEveryPart | src/TimePicker.tsx:408-464 | Picking an hour, a minute, a second and a period from the lists yields a valid time from any text. |
| Digital.JoinValid | src/TimePicker.tsx:425-431 | Parts from the lists always join into a valid time. |
| Digital.PickIntoEmpty12Hour | src/TimePicker.tsx:416-417 | Picking a minute into an empty 12-hour input gives "00:30 AM", which `isValidTime` rejects. |
| Placement.CeilHalf | src/hooks/useTimePicker.ts:277 | `Math.ceil(h / 2)`: the least integer whose double is at least h. |
| Placement.SetPositionHook | src/hooks/useTimePicker.ts:270-312 | The hooks' coordinates are the placement rule's. |
| Placement.SetPositionStandalone | src/TimePicker.tsx:596-655 | The component's coordinates are its placement rule's, including the cramped branch. |
| Placement.HookPlacement | src/hooks/useTimePicker.ts:283-311 | The popup is as wide as the input. Left and right change only x; the other sides change only y. |
| Placement.StandalonePlacement | src/TimePicker.tsx:611-653 | In both branches the popup is as wide as the input. Left and right change only x; the other sides change only y. |
| Placement.BottomPlacement | src/hooks/useTimePicker.ts:285-291 | With room below, the popup sits the gap below the input. Else, with room above, it is on screen the gap above. Else it is centred. |
| Placement.TopPlacement | src/hooks/useTimePicker.ts:292-298 | With room above, the popup sits the gap above the input. Else, with room below, it sits at the input's bottom with no gap. Else it is centred. |
| Placement.LeftPlacement | src/hooks/useTimePicker.ts:299-300 | With room on the left, the popup ends the gap before the input. Otherwise it starts the gap after it. |
| Placement.RightPlacement | src/hooks/useTimePicker.ts:301-302 | With room on the right, the popup starts the gap after the input. Otherwise it ends the gap before it. |
| Placement.CenterPlacement | src/hooks/useTimePicker.ts:303-306 | Centre always centres on the input's top, in both rules. |
| Placement.CrampedPlacement | src/TimePicker.tsx:613-625 | Without enough space the requested side is used with no fallback. |
| Placement.PlacementsAgree | src/TimePicker.tsx:608-649 | With enough space both rules agree. They differ only in a cramped document, away from centre. |
| Placement.CentredOddHeight | src/TimePicker.tsx:603 | An odd-height popup is centred one pixel high. |
| ClockFace.GetShortestAngle | src/hooks/useClock.ts:54-57 | The result is `to` plus a multiple of 360. |
| ClockFace.GetShortestAngleBounded | src/hooks/useClock.ts:54-57 | When `to - from + 540 >= 0` the needle turns at most half a turn. |
| ClockFace.GetShortestAngleExamples | src/hooks/useClock.ts:54-57 | 350 → 10 gives 370 and 10 → 350 gives -10. |
| ClockFace.GetShortestAngleOvershoots | src/hooks/useClock.ts:54-57 | From 630 to the 60 mark the code gives 420, a 210-degree swing. |
| ClockFace.NeedleReaches630 | src/hooks/useClock.ts:107-109 | Seven quarter-turn clicks bring the needle to 630. |
| ClockFace.ShortestAngle | src/hooks/useClock.ts:54-57 | Corrected rule: on the target mark, and within half a turn of `from`. |
| ClockFace.ShortestAngleUnique | src/hooks/useClock.ts:54-57 | Those two properties determine the corrected result. |
| ClockFace.ShortestAgrees | src/hooks/useClock.ts:54-57 | The code agrees with the corrected rule whenever its remainder's operand is non-negative. |
| ClockFace.HourLabel | src/hooks/useClock.ts:72-73 | `t % 12 \|\| 12` is t on 1..12 and always in 1..12, congruent to t modulo 12. |
| ClockFace.MinuteLabels | src/hooks/useClock.ts:74-81 | The minute ticks read the two-digit minute of each mark, "00" at 12. |
| ClockFace.MinuteLabel | src/hooks/useClock.ts:75-80 | A minute tick's label is at least two digits. |
| ClockFace.NeedleTarget | src/hooks/useClock.ts:106-118 | An hour 0..12 has its mark at `(hour % 12) * 30`, in 0..330. A minute 0..59 has its mark at `minute * 6`, below 360. |
| ClockFace.ClockAngle | src/hooks/useClock.ts:98 | The turned angle is in [0, 360) and is the raw angle plus 90 modulo 360. |
| ClockFace.HourOfAngle | src/hooks/useClock.ts:102 | The snapped hour is in 1..12 and its mark is within 15 degrees of the angle. |
| ClockFace.MinuteOfAngle | src/hooks/useClock.ts:112 | The snapped minute is in 0..59 and its mark is within 3 degrees of the angle. |
| ClockFace.SnapHourNearest | src/hooks/useClock.ts:100-109 | After a click in hour mode the needle target is the hour mark nearest the click. |
| ClockFace.SnapMinuteNearest | src/hooks/useClock.ts:110-119 | After a click in minute mode the needle target is the minute mark nearest the click. |
| ClockFace.SnapExamples | src/hooks/useClock.ts:102-112 | 0 and 350 degrees snap to 12, 344 to 11; 359 snaps to minute 0, 356 to 59, 3 to 1. |
| ClockFace.ClickReportsValid | src/hooks/useClock.ts:100-119 | A click always reports a valid time when the other field is in range. |
| ClockFace.ClockValidity | src/hooks/useClock.ts:48 | `isValid` is exactly 1 ≤ hour ≤ 12 and 0 ≤ minute < 60. An emptied hour (0) is invalid. |
| ClockFace.Clock.constructor | src/hooks/useClock.ts:20-33 | Initial state: the fields of the value's reading, hour mode, needle at 0, not measured, no reports. The return type is not stored; `CurrentReturnType` recomputes it from the value on every render (line 20). |
| ClockFace.Clock.SyncEffect | src/hooks/useClock.ts:157-182 | The fields become the value's reading. The needle turns by the shortest way to the mode's mark, or resets to 0 for a falsy value. |
| ClockFace.Clock.Mount | src/hooks/useClock.ts:123-155 | The clock is measured, the value re-read, and the value/mode effect runs. |
| ClockFace.Clock.ReceiveValue | src/hooks/useClock.ts:157-182 | A new value is stored and the fields become its reading. The needle turns by the shortest way to the mode's mark, or resets to 0 for a falsy value. Mode, measurement and reports are unchanged. |
| ClockFace.Clock.SetMode | src/hooks/useClock.ts:157-182 | Switching modes turns the needle to the new mode's mark. |
| ClockFace.Clock.SelectHour | src/hooks/useClock.ts:102-109 | The hour is set. `setValue` and `onTimeChange` are reported with the other fields as they are. The needle turns to the hour mark. |
| ClockFace.Clock.SelectMinute | src/hooks/useClock.ts:112-119 | The minute is set, reported the same way, and the needle turns to the minute mark. |
| ClockFace.Clock.HandleClockClick | src/hooks/useClock.ts:85-121 | Nothing happens before the clock is measured. Otherwise the nearest hour (1..12) or minute (0..59) is selected and reported, and the needle turns within half a turn. |
| ClockFace.Clock.HandleHourInputChange | src/hooks/useClock.ts:184-196 | `parseInt(text, 10)` in 1..12 is selected and reported. Empty text sets 0 silently. Other text changes nothing. |
| ClockFace.Clock.HandleMinuteInputChange | src/hooks/useClock.ts:198-210 | `parseInt(text, 10)` in 0..59 is selected and reported. Empty text sets 0 silently. Other text changes nothing. |
| ClockFace.Clock.HandlePeriodChange | src/hooks/useClock.ts:212-215 | Only the period changes. The report passes the hour and minute through unchanged. |
| TimePickers.ParseTimeFromValueLocal | src/TimePicker.tsx:112-184 | "" for blank input. Otherwise "", a valid canonical string, or text the time-only pattern matches. |
| TimePickers.LocalParseElsewhere | src/TimePicker.tsx:112-184 | Away from time-only strings the local copy equals the shared helper, as written and corrected. |
| TimePickers.LocalParseKeepsText | src/TimePicker.tsx:134-137 | Trimmed time-only text comes back exactly as typed. |
| TimePickers.LocalParseDisplay | src/TimePicker.tsx:134-137 | On canonical displays both copies are the identity and agree. |
| TimePickers.LocalParseDiffers | src/TimePicker.tsx:134-137 | "7:05 pm" is kept by the component and then rejected by its validity check. The shared helper gives "07:05 PM". |
| TimePickers.OptionsValid | src/TimePicker.tsx:377-387 | Every list entry is a two-digit hour, minute or second that `isValidTime` accepts, with its position's value. |
| TimePickers.HourOptions | src/TimePicker.tsx:377-379 | The hour list has 12 entries on the 12-hour clock and 24 otherwise. |
| TimePickers.SixtyOptions | src/TimePicker.tsx:381-386 | The minute and second list has 60 entries. |
| TimePickers.ParsedValidWhenSwitchesAgree | src/TimePicker.tsx:347-349 | When the 12-hour and AM/PM switches agree, a parsed value is "" or valid. |
| TimePickers.ParsedInvalidWhenSwitchesDisagree | src/TimePicker.tsx:347-349 | When they disagree, "13:00" is read on the 24-hour clock and then rejected. |
| TimePickers.Picker.constructor | src/hooks/useTimePicker.ts:33-49 | Initial state: the detected return type, the parsed text as both edited and committed text, the original value, closed, unplaced. |
| TimePickers.Picker.Mount | src/hooks/useTimePicker.ts:345-363 | The hook re-reads its value, places the drop-down, and commits the render-time text. The component only places the drop-down and commits the text. |
| TimePickers.Picker.ReceiveValue | src/TimePicker.tsx:362-374 | The component takes over a new reading as edited text, committed text and original value. The hook keeps its text. |
| TimePickers.Picker.UpdateTime | src/hooks/useTimePicker.ts:83-121 | The new text joins the updated parts. It is reported in the caller's encoding and with its validity. |
| TimePickers.Picker.HandleHourClick | src/hooks/useTimePicker.ts:124-126 | An hour click updates only the hour part. |
| TimePickers.Picker.HandleMinuteClick | src/hooks/useTimePicker.ts:128-130 | A minute click updates only the minute part. |
| TimePickers.Picker.HandleSecondClick | src/hooks/useTimePicker.ts:132-134 | A second click updates only the second part. |
| TimePickers.Picker.HandlePeriodClick | src/hooks/useTimePicker.ts:136-138 | A period click updates only the period part. |
| TimePickers.Picker.HandleChange | src/hooks/useTimePicker.ts:140-229 | The text becomes the mask and is reported. The reported validity is exactly whether enough digits were typed. The invalid marker shows exactly while the time is partly typed. |
| TimePickers.Picker.HandleFocus | src/hooks/useTimePicker.ts:262-268 | Focus opens the drop-down and places it by this picker's rule. |
| TimePickers.Picker.HandleBlur | src/hooks/useTimePicker.ts:314-318 | Focus leaving the input closes the drop-down. |
| TimePickers.Picker.HandleCancel | src/hooks/useTimePicker.ts:320-330 | The committed text is restored and sent to `setValue`, ("", false) is reported, and the drop-down closes. |
| TimePickers.Picker.HandleOk | src/hooks/useTimePicker.ts:332-342 | The text is reported with its validity and committed, and the drop-down closes. |
| TimePickers.ConfirmTypeCancel | src/hooks/useTimePicker.ts:320-342 | OK, then typing, then Cancel brings back the confirmed text. |
| ClockPickers.ClockFormatInput | src/hooks/useClockPicker.ts:42-88 | The clock picker's mask is the digital mask in the 12-hour, no-seconds, AM/PM format. |
| ClockPickers.ClockFormatDigits | src/hooks/useClockPicker.ts:60-88 | Appending hour, minute and suffix step by step gives that mask. |
| ClockPickers.ClockHour | src/hooks/useClockPicker.ts:60-70 | A two-digit hour above 12 becomes 12 and 0 becomes 1, zero-padded. A lone digit is kept. |
| ClockPickers.ClockMinutePart | src/hooks/useClockPicker.ts:72-82 | From a third digit on, ":" and the clamped minute are appended. |
| ClockPickers.ClockMinute | src/hooks/useClockPicker.ts:74-81 | A minute above 59 becomes 59, zero-padded. A lone digit is kept. |
| ClockPickers.ClockHourClamp | src/hooks/useClockPicker.ts:65-68 | Clamping the hour as a number and padding it equals the digital mask's clamped hour. |
| ClockPickers.ClockMinuteClamp | src/hooks/useClockPicker.ts:78-80 | Clamping the minute as a number and padding it equals the digital mask's clamped minute. |
| ClockPickers.ClockValid | src/hooks/useClockPicker.ts:101-105 | The clock picker's pattern accepts exactly what the digital `isValidTime` accepts in its 12-hour, AM/PM, no-seconds format. |
| ClockPickers.ClockTextValid | src/hooks/useClockPicker.ts:101-105 | The clock's text passes exactly for hour 1..12, minute 0..59 and AM or PM. |
| ClockPickers.ClockValidIsClockText | src/hooks/useClockPicker.ts:101-105 | Every valid text is the clock's text of its own hour, minute and period. |
| ClockPickers.ClockTextIsTimeString | src/ClockPicker.tsx:106-110 | The clock's text is detected as "time-string". |
| ClockPickers.ClockEchoesPickerText | src/ClockPicker.tsx:106-110 | A dial time written as the clock writes it is valid, is read back as the same fields, and the clock hands back the same text. |
| ClockPickers.ClockPicker.constructor | src/hooks/useClockPicker.ts:28-40 | Initial state: detected return type, parsed text as edited and committed text, original value, closed, unplaced. |
| ClockPickers.ClockPicker.Mount | src/hooks/useClockPicker.ts:198-209 | The value is re-read, the drop-down placed by the hooks' rule, and the render-time text committed. |
| ClockPickers.ClockPicker.ReceiveValue | src/hooks/useClockPicker.ts:28 | Only the return type follows a new value. |
| ClockPickers.ClockPicker.HandleChange | src/hooks/useClockPicker.ts:42-99 | The text becomes the mask and fits the input's eight characters. `setValue` is reported, then `onTimeChange`, whose validity is exactly whether four digits were typed. |
| ClockPickers.ClockPicker.HandleClockFocus | src/hooks/useClockPicker.ts:107-113 | The drop-down toggles and is placed only when it opens. |
| ClockPickers.ClockPicker.HandleClickOutside | src/hooks/useClockPicker.ts:155-164 | A press outside both the drop-down and the input closes it. |
| ClockPickers.ClockPicker.HandleCancel | src/hooks/useClockPicker.ts:166-174 | The committed text is restored and sent to `setValue`, ("", false) is reported, and the drop-down closes. |
| ClockPickers.ClockPicker.HandleTimeChange | src/hooks/useClockPicker.ts:176-186 | The clock's text is taken over. `onTimeChange` is reported before `setValue`. |
| ClockPickers.ClockPicker.HandleOk | src/hooks/useClockPicker.ts:188-196 | The text is reported with its validity and committed, and the drop-down closes. |
| ClockPickers.ClockSetsText | src/ClockPicker.tsx:106-110 | A time set on the clock face arrives as the clock's text, and is reported valid exactly when it is on the dial. |

## Left out

- `debounce` (src/utils/helpers.ts:5-27): it is built on timers.
- The host's date functions are parameters of the model, not definitions: time zones, `new Date(text)`, `toISOString`, `getTime` and the calendar getters. The round trips that depend on them state their hypotheses about the host.
- Daylight-saving transitions: `setHours` is modelled as replacing the time of day within one local day.
- Floating point: `Math.atan2`, the radian conversions and `getPosition` of `useClock`. The click is modelled from an integer angle in degrees. `Math.round` is modelled on integers, and a click on a half-degree boundary is not modelled.
- JSX rendering and CSS class composition of the three components. The one exception is the invalid marker, the `ShowsInvalid` predicate of the `Picker` class.
- DOM plumbing: refs, `getBoundingClientRect`, window and document listeners, `select()` and `blur()`.
  - Rectangles are integer records.
  - Refs are taken to be attached, so the position is set whenever the source would set it when mounted.
  - A resize only re-measures the clock; measurement is a flag.
- React batching and re-rendering. A handler reads state from the render it was created in. Successive handler calls are modelled as separate renders.
- The `try`/`catch` fallbacks: one throw is modelled. `toISOString` on the invalid date throws, and the converter's catch returns the time string (src/utils/helpers.ts:206-209, 250-252); `Codec.Encode` has that fallback and `Codec.IsoRoundTrip` proves the round trip through it. No other modelled operation throws, so the remaining catch blocks are not modelled.
- Upper-casing (`JsText.ToUpper`) is ASCII-only, so it keeps the length. JavaScript's `toUpperCase` can lengthen text (`"ß"` becomes `"SS"`). Every caller reads only digits, 'A', 'P' and ASCII AM/PM from the result, and full case mapping neither makes nor removes any of those.
- `Codec.Value.Num` holds an integer. Fractional, infinite and exponent-written numbers are not modelled. Their text changes the length test of `detectReturnType` (src/utils/helpers.ts:37-42): `12345678.9` has ten characters and is read as unix seconds.
- ClockFace.Clock.SyncEffect: the needle turns by the corrected `ClockFace.ShortestAngle`, where the code calls its truncating `getShortestAngle` (src/hooks/useClock.ts:167, 171). The two agree whenever the remainder's operand is non-negative (`ClockFace.ShortestAgrees`). From a needle at 630 they differ (`ClockFace.GetShortestAngleOvershoots`).
- ClockFace.Clock.Mount: the needle turns by `ClockFace.ShortestAngle`, not `getShortestAngle` (src/hooks/useClock.ts:167, 171, through the value/mode effect); see the SyncEffect line.
- ClockFace.Clock.ReceiveValue: the needle turns by `ClockFace.ShortestAngle`, not `getShortestAngle` (src/hooks/useClock.ts:167, 171); see the SyncEffect line.
- ClockFace.Clock.SetMode: the needle turns by `ClockFace.ShortestAngle`, not `getShortestAngle` (src/hooks/useClock.ts:167, 171); see the SyncEffect line.
- ClockFace.Clock.SelectHour: the needle turns by `ClockFace.ShortestAngle`, not `getShortestAngle` (src/hooks/useClock.ts:108, 191). From a needle at 630, selecting 2 o'clock gives 780 in the model and 420 in the code.
- ClockFace.Clock.SelectMinute: the needle turns by `ClockFace.ShortestAngle`, not `getShortestAngle` (src/hooks/useClock.ts:118, 205).
- ClockFace.Clock.HandleClockClick: the needle turns by `ClockFace.ShortestAngle`, not `getShortestAngle` (src/hooks/useClock.ts:108, 118). From a needle at 630, a click on 2 o'clock gives 780 in the model and 420 in the code.
- ClockFace.Clock.HandleHourInputChange: the needle turns by `ClockFace.ShortestAngle`, not `getShortestAngle` (src/hooks/useClock.ts:191).
- ClockFace.Clock.HandleMinuteInputChange: the needle turns by `ClockFace.ShortestAngle`, not `getShortestAngle` (src/hooks/useClock.ts:205).
- ClockFace.Clock.constructor: `useClock`'s initial state and its value/mode effect read the value with `Codec.ParseClockTimeFromValueCorrected`, not with the as-written helper. The same holds for `TimePickers.Picker` (hook variant) and `ClockPickers.ClockPicker`, which use `Codec.ParseTimeFromValueCorrected`. The difference is confined to period-less input; see Findings.
- `TimePickers.Picker.UpdateTime`: its ensures gives the new text as the joined parts. Which parts the text then holds is stated separately by `Digital.PickParts`.
- `ClockPickers.ClockPicker.ReceiveValue`: `useClockPicker` reads its value only on mount, so a new value changes only the return type. `TimePickers.Picker.ReceiveValue` has the same behaviour in the hook variant.
- The standalone `TimePicker.tsx` copies of `detectReturnType`, `convertTimeToReturnType` and `getTimes` are not modelled separately: each is identical to the shared helper.
- src/index.ts and src/types/*.ts declare no behaviour; the return-type union is `Codec.ReturnType`.

## Findings

| source | as written | input that shows it | evidently intended | confidence | as-written member | corrected member |
|---|---|---|---|---|---|---|
| src/hooks/useClock.ts:54-57 | `getShortestAngle` uses JavaScript's truncating `%`. Once `to - from + 540` is negative, the remainder is negative and the needle swings the long way. | from = 630 (reached by seven quarter-turn clicks), to = 60 gives 420: a 210-degree swing | the shortest rotation, at most half a turn, on the target mark | not executed | ClockFace.GetShortestAngleOvershoots | ClockFace.ShortestAngle |
| src/utils/helpers.ts:99-114 | With no period on the 12-hour clock, the hour is folded into 1..12 and the derived AM/PM is dropped before `setHours`. The display then takes its period from the folded hour. | "13:00" is shown as "01:00 AM"; "00:30" as "12:30 PM" | the typed 24-hour time: "01:00 PM", "12:30 AM" | not executed | Codec.PeriodlessExamples | Codec.ParseTimeFromValueCorrected |
| src/utils/helpers.ts:306-319 | With no period, `parseClockTimeFromValue` subtracts 12 from hours above 12, but the period stays "AM". | "13:00" gives 1:00 AM; "12:00" gives 12:00 AM (midnight) | 1:00 PM and 12:00 PM, as the same time read as a date gives | not executed | Codec.ClockPeriodlessExamples | Codec.ParseClockTimeFromValueCorrected |
