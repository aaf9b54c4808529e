/** Option and Result values, and the Python exceptions the modelled code can raise. */
module Results {

  datatype Option<T> = None | Some(value: T)

  /** The exceptions the source lets escape, as values instead of control flow. */
  datatype PyError =
    | IndexError(what: string)   // a list or tuple subscript out of range
    | KeyError(key: string)      // a missing dictionary key or DataFrame column
    | ValueError(what: string)   // tuple unpacking of the wrong length, ambiguous truth value
    | NameError(name: string)    // a local variable read before it was ever assigned
    | InvalidIndexError          // pandas: reindexing through a non-unique index
    | AttributeError(attr: string) // pandas: a column read from a frame built from no records

  datatype Result<T> = Success(value: T) | Failure(error: PyError)
}
