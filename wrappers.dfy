/** Optional values, results and the store's error outcomes. */
module Wrappers {

  datatype Option<+T> = None | Some(value: T)

  datatype Result<+T, +E> = Ok(value: T) | Err(error: E)

  /** The result of an operation that returns nothing but success or an error. */
  datatype Outcome<+E> = Pass | Fail(error: E)

  /** The errors the store's operations report. */
  datatype Error =
    | SeriesNeeded      // "series need": the series parameter is empty
    | ValueNeeded       // "value need": the value parameter is empty
    | TimeNeeded        // "time need": deletebytime without a time
    | InvalidDuration   // the ttl parameter is not a Go duration
    | SeriesNotFound    // "Series not found!": no bucket for the series
    | BucketNotFound    // the error bolt's DeleteBucket reports for an absent bucket
    | TtlRegistryGone   // the _TTL_SERIES bucket is missing, so a nil bucket is dereferenced
}
