/** The shapes a probe can resolve to. */
module Results {

  /** A Java reference that may be null. */
  datatype Option<+T> = None | Some(value: T)

  /** What one probe of the device resolves to: a typed value, a clean
      "target not present", a reply the parser does not understand (the
      RuntimeException the probe throws, with its message), or a failure of
      the channel underneath (a shell command or live query that threw). */
  datatype Probe<+T> =
    | Value(value: T)
    | Absent
    | FormatError(message: string)
    | ExecutionError
}
