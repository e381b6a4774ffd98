/** The parsers' `Maybe<T>` (an optional result with a validity flag). */
module Maybe {
  datatype Option<+T> = None | Some(value: T)
}
