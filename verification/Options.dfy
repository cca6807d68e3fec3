/** What the other modules share. */
module Options {
  datatype Maybe<T> = Nothing | Just(value: T)

  type Bytes = seq<bv8>
}
