/** A JavaScript property that may be `undefined`, and the outcome of an operation that may refuse. */
module Options {

  datatype Option<T> = None | Some(value: T)

  datatype Result<R, E> = Ok(value: R) | Err(error: E)
}
