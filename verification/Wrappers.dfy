/** Optional values, and results that may carry one of the errors the stack raises. */
module Wrappers {

  datatype Option<+T> = None | Some(value: T)

  datatype Result<+T, +E> = Ok(value: T) | Err(error: E) {
    predicate IsFailure() {
      Err?
    }

    function PropagateFailure<U>(): Result<U, E>
      requires Err?
    {
      Err(error)
    }

    function Extract(): T
      requires Ok?
    {
      value
    }
  }

  /** The exceptions of the transport code that the model tells apart. */
  datatype Error =
    | NotEnoughData      // utils.NotEnoughData, raised by Buffer.read and Buffer.skip
    | StructError        // struct.error: a number does not fit its field
    | ValueError         // a padding byte above 255, or a range step of zero
    | IndexError         // the last byte of an empty string, or an index past a list's end
    | KeyError
    | AssertionError
    | UaError            // errors the stack raises itself
    | InvalidSignature
    | DecryptionError    // raised inside the cryptography library
}
