/** Small value types shared by the whole model. */
module Outcomes {

  datatype Option<+T> = None | Some(value: T)

  /** What one call to the text-generation service gave back: its text, or a raised error. */
  datatype Reply = Answer(text: string) | Failure

  /** What a source method that may raise gives its caller: a value, or an exception. */
  datatype Outcome<+T> = Returned(value: T) | Raised
}
