/** Small value types shared by every component of the console. */
module Values {

  /** A nullable value (`T | null` or an optional property). */
  datatype Option<T> = None | Some(value: T)

  /** What awaiting an asynchronous call gives: the promise resolves to a
      value or rejects with an error whose `message` may be empty. */
  datatype Attempt<T> = Returns(value: T) | Throws(message: string)

  /** How an event handler ended, as seen by whoever invoked it. */
  datatype HandlerResult =
    | Skipped                    // an early `return` before any call
    | Done                       // every awaited call resolved
    | Caught(message: string)    // a call rejected and the handler's `catch` took it
    | Rethrown(message: string)  // a call rejected and the rejection left the handler

  /** JavaScript truthiness of a `string | null`: null and "" are falsy. */
  predicate IsTruthy(s: Option<string>)
  {
    s.Some? && s.value != ""
  }

  /** `s || ''` for an optional string. */
  function OrEmpty(s: Option<string>): string
  {
    if s.Some? then s.value else ""
  }
}
