/** Optional values and the Java exceptions the modelled code can raise. */
module Wrappers {
  /** A reference that may be null, or a lookup that may miss. */
  datatype Option<T> = None | Some(value: T)

  /** The unchecked exceptions the modelled paths of the library can raise. */
  datatype JavaException =
    | IndexOutOfBounds
    | NoSuchElement
    | NullPointer
    | NumberFormat
    | NegativeArraySize
    | ConcurrentModification

  /** The result of a call that either returns normally or raises. */
  datatype Outcome<T> = Ok(value: T) | Thrown(exception: JavaException)
}
