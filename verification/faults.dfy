/** Failure values for the numpy and Python errors the detector code can raise. */
module Faults {

  /** The runtime errors the modelled code can raise, one constructor per cause. */
  datatype Fault =
    | EmptyArray      // np.convolve or np.max on an empty array (ValueError)
    | ShapeMismatch   // np.vstack of channel slices of unequal length, or of no slices
    | BufferSize      // np.frombuffer on a byte count that is not a multiple of the item size
    | ChannelIndex    // a channel index past the meter's two slots (IndexError)
    | ZeroDivision    // division by a zero sample rate or a zero block step
    | CastError       // in-place true division of an integer array (UFuncTypeError)

  /** A value or the error that prevented computing it. */
  datatype Result<+T> = Ok(value: T) | Err(fault: Fault) {
    predicate IsFailure() { Err? }

    function PropagateFailure<U>(): Result<U>
      requires Err?
    {
      Err(fault)
    }

    function Extract(): T
      requires Ok?
    {
      value
    }
  }
}
