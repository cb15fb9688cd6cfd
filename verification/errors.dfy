/** Construction-time configuration errors shared by the zone counters and the
    metrics emitter. Per-frame updates never fail; only constructors do. */
module Errors {

  /** The three ways a constructor can reject its arguments. */
  datatype ConfigError =
    | DegenerateLine    // LineCounter given two identical points
    | TooFewVertices    // RoiCounter given fewer than three vertices
    | IntervalTooShort  // SecondBasedEmitter given an interval below one second

  /** Either a constructed value or the configuration error that prevented it. */
  datatype Result<T> = Ok(value: T) | Err(error: ConfigError)
}
