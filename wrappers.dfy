/** Optional values, results and the exceptions the modelled code can raise. */
module Wrappers {

  /** Python's `None` or a present value. */
  datatype Option<T> = None | Some(value: T)

  /** The exceptions raised by the modelled code, by the Python runtime it relies on,
      or by the frame engine it calls. */
  datatype Error =
    | TypeError                          // wrong kind of argument, or unpacking a non-iterable
    | AttributeError                     // `.group` called on the `None` of a failed search
    | IndexError                         // `[0]` of an empty list
    | ZeroDivisionError                  // `/` or `//` by zero
    | UnboundLocalError                  // a local variable read before any assignment
    | StatisticsError                    // median of no data
    | InvalidLiteral(text: string)       // ValueError from `int(text)`
    | EmptySeparator                     // ValueError from `str.split("")`
    | StartAfterEnd(start: int, end: int)  // ValueError of output_ranges
    | EndTooBig(end: int)                // ValueError of output_ranges
    | EpisodeNotFound                    // the package's own exception
    | FrameOutOfRange(frame: int)        // the engine refuses to produce this frame
    | EmptyTrim                          // the engine refuses a zero-length clip

  /** A value, or the exception that stopped its computation. */
  datatype Result<T> = Ok(value: T) | Err(error: Error)
}
