/** The values the union policies hand back: Go's nil-able results, its
    `(value, error)` pairs, and the errors the two policies can report. */
module Outcomes {

  /** A Go pointer or interface value: `None` stands for nil. */
  datatype Option<+T> = None | Some(value: T)

  /** The errors that reach the callers of the two policies. */
  datatype Error =
    | ErrorObjectNotFound            // fs.ErrorObjectNotFound
    | ErrNoUpstreamsFound            // "no upstreams found with more than min_free_space space spare"
    | FilterError(reason: string)    // any other error the existing-path filter returns

  /** A call that either yields a value or fails, returning nothing else when it fails. */
  datatype Result<+T> = Ok(value: T) | Err(error: Error)

  /** A Go result pair `(value, err)`: both halves are returned, and `err` is
      `None` when the Go code returns a nil error. */
  datatype Reply<+V> = Reply(value: V, err: Option<Error>)
}
