/** Small wrappers shared by every module of the model. */
module Basics {

  /** A value that may be absent (JavaScript `undefined`, SQL NULL, a missing header). */
  datatype Option<+T> = None | Some(value: T)

  /** The outcome of a JavaScript call that either returns a value or throws an
      `Error`; the rest of the program only ever looks at the error's message. */
  datatype Thrown<+T> = Returned(value: T) | Threw(message: string)
}
