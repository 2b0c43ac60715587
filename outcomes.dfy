/** The value shapes shared by both request handlers. */
module Outcomes {

  /** A lookup that may find nothing (JavaScript's `undefined`). */
  datatype Option<+T> = None | Some(value: T)

  /**
   * What a handler answers: the JSON body of a 200 response, or the
   * message of a 404 response.
   */
  datatype Response<+T> = Ok(value: T) | NotFound(error: string)
}
