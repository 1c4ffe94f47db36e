/** Optional values and the Java exceptions the modelled code can raise. */
module Wrappers {

  /** Java's nullable reference: `None` plays the part of `null`. */
  datatype Option<+T> = None | Some(value: T)

  /** The unchecked exceptions the modelled Java code can throw. */
  datatype Fault =
    | NullPointer      // a method called on a null reference
    | NoSuchElement    // `Iterator.next()` on an exhausted iterator

  /** The result of a computation that either returns a value or throws. */
  datatype Result<+T> = Ok(value: T) | Err(fault: Fault)
}
