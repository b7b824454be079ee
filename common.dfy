/** Small value types shared by the rest of the model. */
module Common {

  /** A value that may be absent (Python's `None`). */
  datatype Option<T> = None | Some(value: T)

  /** The Python exceptions the modelled code can let escape to its caller. */
  datatype Error =
    | AttributeError(name: string)  // `getattr(item, name)` on an item without that attribute
    | IndexError                    // `query._entities[0]` on a query that selects nothing

  /** The outcome of a Python call: a value, or the exception it raised. */
  datatype Result<T> = Ok(value: T) | Err(error: Error)
}
