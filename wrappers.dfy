/** The optional value used where the Java code returns `null` or an empty `Optional`. */
module Wrappers {

  datatype Option<+T> = None | Some(value: T)

  /** `Objects::nonNull` on an optional reference. */
  predicate IsPresent<T>(o: Option<T>) {
    o.Some?
  }
}
