/** Values shared by every layer: optional values, results carrying an error
    message, and the instants that stand for `new Date()`. */
module Common {

  datatype Option<+T> = None | Some(value: T)

  /** A computation that either yields a value or fails the way the source
      throws `new Error(message)`: the message is kept, because the HTTP
      controllers classify failures by the text of the message. */
  datatype Result<+T> = Ok(value: T) | Err(message: string)

  /** A computation without a value (`Promise<void>`) that may fail with a message. */
  datatype Outcome = Pass | Fail(message: string)

  /** An instant, in milliseconds since the epoch; every `new Date()` of the
      source is a parameter of this type. */
  type Instant = int

  /** No element occurs twice. */
  predicate Distinct<T(==)>(s: seq<T>) {
    forall i, j :: 0 <= i < j < |s| ==> s[i] != s[j]
  }

  /** JavaScript truthiness of an optional string: `undefined` and `""` are falsy. */
  predicate Truthy(s: Option<string>) {
    s.Some? && s.value != ""
  }
}
