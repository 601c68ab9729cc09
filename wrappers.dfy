/** The exceptions the benchmark can raise, and the result types that carry them. */
module Wrappers {

  /** The .NET exceptions reachable from the modelled code. */
  datatype Error =
    | ArgumentOutOfRange   // Enumerable.Repeat / Enumerable.Range given a negative count
    | NotSupported         // MemoryStream.Write past the end of a non-expandable stream
    | SemaphoreFull        // SemaphoreSlim.Release beyond its maximum count
    | OutOfMemory          // a byte array longer than the runtime's array-length cap

  /** A value, or the exception that was thrown instead. */
  datatype Result<T> = Success(value: T) | Failure(error: Error)

  /** Normal completion of a void operation, or the exception it threw. */
  datatype Outcome = Pass | Fail(error: Error)

  datatype Option<T> = None | Some(value: T)
}
