/** The failures the containers signal, and the value-or-failure type their operations return. */
module Outcomes {

  /** One constructor per exception the Java code throws. */
  datatype Error =
    | DuplicateKey   // IllegalArgumentException from the tree insert
    | NotFound       // NoSuchElementException from search and remove
    | TableFull      // IllegalStateException from the hash table insert
    | Unsupported    // UnsupportedOperationException from the hash table remove

  datatype Result<T> = Ok(value: T) | Err(error: Error)

  datatype Option<T> = None | Some(value: T)
}
