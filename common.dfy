/** Types shared by every layer: optional values, what a call returns or throws,
    the exceptions the core raises, and time. */
module Common {

  datatype Option<T> = None | Some(value: T)

  /** One validation failure as FluentValidation reports it. */
  datatype ValidationFailure = ValidationFailure(propertyName: string, errorMessage: string)

  /** The exceptions the modelled code raises or lets through. */
  datatype Exception =
    | ValidationException(errors: seq<ValidationFailure>)  // FluentValidation.ValidationException
    | ApplicationException(message: string)               // System.ApplicationException
    | NotFoundException(entityName: string, key: int)      // its declaration is not part of this model
    | FormatException                                      // int.Parse on a malformed string
    | OverflowException                                    // int.Parse outside the int range
    | DbUpdateException                                    // the store refuses to save a row

  /** What a call of the source does: it returns a value or throws. */
  datatype Outcome<T> = Returned(value: T) | Threw(exception: Exception)

  /** A point in time, in DateTime ticks of 100 ns. Only order, equality and
      AddMinutes are used by the core. */
  type Time = int

  const TicksPerMinute: int := 600_000_000

  /** DateTime.AddMinutes for a whole number of minutes. */
  function AddMinutes(t: Time, minutes: int): (r: Time)
    ensures minutes >= 0 ==> r >= t
    ensures minutes > 0 ==> r > t
  {
    t + minutes * TicksPerMinute
  }
}
