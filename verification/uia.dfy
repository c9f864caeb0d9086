/**
  The slice of the Windows UI Automation (UIA) surface that the prototype talks to,
  reduced to values: status codes, errors, `Result`/`Option`, opaque handles and the
  property and pattern identifiers the modelled code uses. Every UIA call itself is a
  foreign call; its reply is handed to the model as one of these values.
 */
module Uia {

  /** A COM status code: a signed 32-bit integer. */
  newtype HResult = x: int | -0x8000_0000 <= x < 0x8000_0000

  /** `S_OK`, the status code UIA's `FindFirst` wraps in an error when nothing matches. */
  const StatusOk: HResult := 0

  /** A status code is a success code when its severity (sign) bit is clear. */
  predicate Succeeded(code: HResult) {
    code >= 0
  }

  /** An error of the Windows bindings: the status code and the message that came with it. */
  datatype Error = Error(code: HResult, message: string)

  datatype Option<+T> = None | Some(value: T)

  /** The bindings' `Result`; `:-` plays the part of Rust's `?`. */
  datatype Result<+T> = Ok(value: T) | Err(error: Error) {

    predicate IsFailure() {
      Err?
    }

    function PropagateFailure<U>(): Result<U>
      requires Err?
    {
      Err(error)
    }

    function Extract(): T
      requires Ok?
    {
      value
    }
  }

  /** Identifiers of UIA properties (`UIA_PROPERTY_ID`, a 32-bit integer). */
  newtype PropertyId = x: int | -0x8000_0000 <= x < 0x8000_0000

  /** Identifiers of UIA control patterns (`UIA_PATTERN_ID`, a 32-bit integer). */
  newtype PatternId = x: int | -0x8000_0000 <= x < 0x8000_0000

  const ValueIsReadOnlyPropertyId: PropertyId := 30046
  const IsTextPattern2AvailablePropertyId: PropertyId := 30119
  const TextPattern2Id: PatternId := 10024

  /** Opaque handles to provider-owned objects; only the provider can say anything about them. */
  datatype Element = Element(handle: nat)
  datatype TextPattern = TextPattern(handle: nat)
  datatype RangeArray = RangeArray(handle: nat)
  datatype TextRange = TextRange(handle: nat)
}
