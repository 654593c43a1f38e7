/** Optional values and results with an error channel, used for the
    places where the modelled code either returns nothing or raises. */
module Options {

  datatype Option<+T> = None | Some(value: T)

  datatype Result<+T, +E> = Ok(value: T) | Err(error: E)
}
