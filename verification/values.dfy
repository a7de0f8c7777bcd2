/** Column values as a dataframe holds them, and the outcome of a run. */
module Values {

  /** A column value that may be SQL NULL (a field missing from a JSON record). */
  datatype Nullable<+T> = Null | NonNull(value: T)

  /** The ways a run of the pipeline can abort. */
  datatype EtlError =
    /** A retained event has no `ts`, so its datetime cannot be computed. */
    | NullTimestamp
    /** A retained event's `ts` lies outside the years a Python `datetime` can hold. */
    | TimestampOutOfRange

  datatype Result<+T> = Ok(value: T) | Err(error: EtlError)

  /** SQL equality in a join condition: NULL equals nothing, not even NULL. */
  predicate SqlEquals<T(==)>(a: Nullable<T>, b: Nullable<T>)
  {
    a.NonNull? && b.NonNull? && a.value == b.value
  }
}
