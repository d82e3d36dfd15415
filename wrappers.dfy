/** An optional value: `undefined` (or a missing object) in the source is `None`. */
module Wrappers {

  datatype Option<+T> = None | Some(value: T)

  /** A computation that returns a value, or throws (a TypeError on a missing object, in the source). */
  datatype Outcome<+T> = Returns(value: T) | Throws

}
