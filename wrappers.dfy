/** Small result types shared by the whole model. */
module Wrappers {

  /** A value that may be absent; `None` stands for the JavaScript `null` a lookup returns. */
  datatype Option<+T> = None | Some(value: T)

  /** The outcome of a step that can throw: `Threw` is a JavaScript exception
      (for instance reading a property of `null`) that escapes the function. */
  datatype Outcome<+T> = Done(value: T) | Threw
}
