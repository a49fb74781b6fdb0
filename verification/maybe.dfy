/** `pstore::maybe`: a value that may be absent. */
module MaybeValues {
  datatype Maybe<T> = Nothing | Just(value: T)
}
