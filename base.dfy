/** Option and Result, and the error kinds that the handler-resolution engine reports. */
module Base {

  datatype Option<+T> = None | Some(value: T)

  datatype Result<+R, +E> = Success(value: R) | Failure(error: E)

  /** The errors the engine produces. `Panic` stands for an `unwrap` that fails in the
      source: the process aborts, so no caller ever recovers from it. `Exit` stands for
      an explicit `std::process::exit(code)`. */
  datatype Error =
    | NotFound(what: string)
    | Cancelled
    | Selector(command: string)
    | NoTerminal
    | BadMime(text: string)
    | BadEntry(path: string)
    | Io
    | Exit(code: int)
    | Panic(reason: string)
  {
    /** True for the outcomes that end the process, which no `or_else` or `ok()` catches. */
    predicate Aborts() {
      Panic? || Exit?
    }
  }
}
