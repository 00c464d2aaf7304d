/** What a picker hands back to its owner: the `setValue` and `onTimeChange` callbacks, recorded in
    the order they are called. */
module Callbacks {
  import opened Codec

  /** One callback invocation: `setValue(value)` or `onTimeChange(value, isValid)`. The digital pickers
      report their text (as a string value); the clock reports the converted value. */
  datatype Notice = SetValue(value: Value) | TimeChange(value: Value, valid: bool)

  /** `onTimeChange?.(value, valid)`: nothing when no callback was given. */
  function Report(reports: bool, value: Value, valid: bool): seq<Notice> {
    if reports then [TimeChange(value, valid)] else []
  }
}
