/** Types shared by the concurrency and recovery layers. */
module Common {

  /** A client (and so its one running transaction) is identified by a UUID; only equality matters. */
  type ClientId = nat

  /** Keys and values of table entries are Go int64s. */
  newtype Int64 = x: int | -0x8000_0000_0000_0000 <= x < 0x8000_0000_0000_0000

  /** The Go `error` return of an operation that produces no value. */
  datatype Outcome<+E> = Pass | Fail(error: E)

  /** A value or an error, for operations that return both in Go. */
  datatype Result<+T, +E> = Ok(value: T) | Err(error: E)
}
