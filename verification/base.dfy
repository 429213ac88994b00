/** Shared vocabulary of the line counter: paths, optional values, and the
    single error type every stage propagates to the top level. */
module Base {

  /** A filesystem path as its list of components. The root directory given on
      the command line is the one-component path `[directory]`, and joining an
      entry name onto a directory appends one component. */
  type Path = seq<string>

  datatype Option<+T> = None | Some(value: T)

  /** The failures the program can surface. Each one ends the run. */
  datatype Error =
    | UnreadableDir(dir: Path)      // listing a directory failed
    | UnreadableEntry(dir: Path)    // the listing of `dir` yielded a failed entry
    | UnreadableFile(file: Path)    // a matched file could not be read as text

  /** A stage either succeeds with a value or fails with one error. */
  datatype Result<+T> = Ok(value: T) | Err(error: Error)
}
