/** Optional values: `null`/`undefined` results of the TypeScript code, and failed parses. */
module Options {

  /** None is a missing file, an undefined array slot, a call that throws or
      a parse that failed;
      Some carries the value that is there. */
  datatype Option<+T> = None | Some(value: T) {

    /** The value that is there, falling back to `default` when it is missing */
    function GetOr(default: T): T {
      match this
      case Some(v) => v
      case None => default
    }
  }
}
