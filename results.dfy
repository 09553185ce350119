/** The outcome of an operation that throws std::out_of_range in the source. */
module Results {

  /** Either the value the operation produced, or the out_of_range failure. */
  datatype Result<T> = Ok(value: T) | OutOfRange
}
