/** The results the library's operations hand back: a value, an error, or --
    for the operations that poll -- no answer yet. */
module Outcomes {

  /** The errors the library produces or passes on. */
  datatype Error =
      /** iscsiadm exited unsuccessfully; its combined output and the reason
          the process failed. */
    | Exec(output: string, cause: string)
      /** errors.Wrap(inner, context). */
    | Wrapped(context: string, inner: Error)
      /** ctx.Err(): the caller's context was cancelled or timed out. */
    | ContextDone
      /** os.ErrNotExist, wrapped with "<iqn> does not exist in portal". */
    | NotExist(iqn: string)
      /** errdefs.ErrNotFound, wrapped with "volume does not exist". */
    | NotFound
      /** The run-time panic `parts[1]` raises on a discovery line that holds
          no space. */
    | IndexOutOfRange(line: string)

  /** Blocked: the operation is still polling when the observations end; the
      program has not returned yet. */
  datatype Outcome<+T> = Ok(value: T) | Err(error: Error) | Blocked
}
