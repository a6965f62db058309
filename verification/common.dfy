/** Small shared vocabulary: optional values and queued operations. */
module Common {

  /** A value that may be absent (JavaScript's `undefined`/`null`). */
  datatype Option<+T> = None | Some(value: T) {

    /** The wrapped value, or `default` when absent. */
    function GetOr(default: T): T {
      match this
      case Some(v) => v
      case None => default
    }
  }

  /** One durable outbound mutation descriptor, `{name, body}`, as handed to the
      operation queue. */
  datatype Operation<+B> = Operation(name: string, body: B)
}
