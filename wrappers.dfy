/** Optional values (C# nullable references and `int?`) and results (a
    computation that either produces a value or fails with an error, standing
    for a thrown exception). */
module Wrappers {

  datatype Option<+T> = None | Some(value: T)

  datatype Result<+T, +E> = Ok(value: T) | Err(error: E)
}
