/** Failure-compatible wrappers used for the source's null values and exceptions. */
module Wrappers {

  /** A value that may be absent (a C# null or a nullable value). */
  datatype Option<T> = None | Some(value: T)

  /** The exception a failing operation throws, by kind. */
  datatype Exception =
    | DuplicateKey          // Dictionary.Add on a present key (ArgumentException)
    | NoElements            // Enumerable.Last on an empty sequence (InvalidOperationException)
    | NullReference         // a member access through null (NullReferenceException)
    | ArithmeticOverflow    // checked arithmetic left int, or long.MinValue / -1 (OverflowException)
    | DivideByZero          // an integer division by zero (DivideByZeroException)
    | Int32Overflow         // a base-10 Convert.ToInt32 read a value outside int (OverflowException)
    | UInt32Overflow        // a base-2 or base-16 Convert.ToInt32 read more than 32 bits (OverflowException)
    | NoDigits              // Convert.ToInt32 found no digit (FormatException)
    | TrailingJunk          // Convert.ToInt32 found characters after the digits (FormatException)
    | MinusNotDecimal       // Convert.ToInt32 read '-' in radix 2 or 16 (ArgumentException)
    | IndexOutOfRange       // an array index past the end (IndexOutOfRangeException)
    | StackEmpty            // Stack.Pop on an empty stack (InvalidOperationException)
    | ArgumentOutOfRange    // a list or string index, or a range argument, out of range (ArgumentOutOfRangeException)
    | Failure(text: string) // an `Exception` the program throws with its own message

  /** The message the exception carries. */
  function Message(e: Exception): string {
    match e
    case DuplicateKey => "An item with the same key has already been added."
    case NoElements => "Sequence contains no elements"
    case NullReference => "Object reference not set to an instance of an object."
    case ArithmeticOverflow => "Arithmetic operation resulted in an overflow."
    case DivideByZero => "Attempted to divide by zero."
    case Int32Overflow => "Value was either too large or too small for an Int32."
    case UInt32Overflow => "Value was either too large or too small for a UInt32."
    case NoDigits => "Could not find any recognizable digits."
    case TrailingJunk => "Additional non-parsable characters are at the end of the string."
    case MinusNotDecimal => "String cannot contain a minus sign if the base is not 10."
    case IndexOutOfRange => "Index was outside the bounds of the array."
    case StackEmpty => "Stack empty."
    case ArgumentOutOfRange => "Specified argument was out of the range of valid values."
    case Failure(text) => text
  }

  /** The outcome of an operation that can throw: its value, or the exception. */
  datatype Result<T> = Ok(value: T) | Err(error: Exception)
}
