/** Optional values and results with an error, used for the scraper's
    "missing" values and for the Python exceptions it lets propagate. */
module Wrappers {

  datatype Option<+T> = None | Some(value: T)

  datatype Result<+T, +E> = Ok(value: T) | Err(error: E)
}
