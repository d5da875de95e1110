// Shared value types: optional values, results with an error tag, and bytes.
module Common {

  datatype Option<T> = None | Some(value: T)
  {
    predicate IsSome() { this.Some? }
  }

  datatype Result<T, E> = Ok(value: T) | Err(error: E)
  {
    predicate IsOk() { this.Ok? }
  }

  /** An octet, as Python `bytes` holds them. */
  type byte = bv8
}
