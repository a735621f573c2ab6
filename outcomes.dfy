/** Results of the .NET operations that the model covers: a value that is
    returned, or one of the exceptions the maze code throws. */
module Outcomes {

  /** A value or nothing; stands for a nullable reference such as `string?`. */
  datatype Option<+T> = None | Some(value: T)

  /** The exceptions that the modelled operations raise, with their messages. */
  datatype Exception =
    | ArgumentException(message: string)
    | NullReferenceException(message: string)
    | IndexOutOfRangeException

  /** How a call ends: it returns a value, or it throws. */
  datatype Outcome<+T> = Returned(value: T) | Threw(exception: Exception)

  /** The `void` of a method that returns nothing useful. */
  datatype Unit = Unit
}
