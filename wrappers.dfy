/** Java's nullable references and exceptions, as values. */
module Wrappers {

  /** A reference that may be null: `None` stands for Java's `null`. */
  datatype Option<+T> = None | Some(value: T)

  /** The unchecked exceptions the modelled classes throw. */
  datatype Exception =
    | NullPointer        // java.lang.NullPointerException
    | NoSuchElement      // java.util.NoSuchElementException
    | IndexOutOfBounds   // java.lang.IndexOutOfBoundsException

  /** The outcome of a call: a normal return with a value, or a thrown exception. */
  datatype Result<+T> = Ok(value: T) | Throws(exception: Exception)
}
