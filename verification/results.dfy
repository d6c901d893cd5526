/** Rust's `Result`, the return type of every fallible operation of the core. */
module Results {

  datatype Result<+T, +E> = Ok(value: T) | Err(error: E)
}
