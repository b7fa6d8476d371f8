/** Option and Result, and the Python exceptions that can escape from the modelled code. */
module Wrappers {

  datatype Option<+T> = None | Some(value: T)

  datatype Result<+T, +E> = Success(value: T) | Failure(error: E)

  /** The exceptions the modelled Python functions raise instead of returning. */
  datatype Exception =
    | StructError         // struct.unpack: buffer size does not match the format
    | ValueError          // range() with step 0, numpy fliplr on a 1-d array, an inhomogeneous array
    | IndexError          // a list index out of range
    | TypeError           // arithmetic on None
    | QueueEmpty          // Queue.get_nowait on an empty queue
    | UnicodeDecodeError  // bytes.decode("utf-8") on malformed input
}
