/**
 * JavaScript `Error` values as the compile server sees them, and the
 * option types shared by the other modules.
 */
module Errors {

  datatype Option<T> = None | Some(value: T)

  datatype Result<T> = Ok(value: T) | Err(error: JsError)

  /** An `Error` object: its `name` (`Error`, `TypeError`, ...) and its `message`. */
  datatype JsError = JsError(name: string, message: string)

  /**
   * `err.message || String(err)`: the message when it is non-empty;
   * otherwise `String(err)`, which for an `Error` whose message is empty
   * is its name alone.
   */
  function ErrorText(err: JsError): string {
    if err.message != "" then err.message else err.name
  }
}
