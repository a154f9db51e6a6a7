/** An optional value. */
module Maybes {
  datatype Maybe<T> = Nothing | Just(value: T) {
    predicate Valid() {
      Just?
    }
  }
}
