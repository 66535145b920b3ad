/** Option and Result, the shapes of Rust's `Option<T>` and `Result<T, E>`
    that the modelled functions return. */
module Results {

  datatype Option<+T> = None | Some(value: T)

  datatype Result<+T, +E> = Ok(value: T) | Err(error: E)
}
