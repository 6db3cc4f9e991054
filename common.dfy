/** Values shared by every container: Java's nullable references and the exceptions they throw. */
module Common {

  /** A Java reference that may be null: `None` stands for `null`. */
  datatype Option<T> = None | Some(value: T)

  /** The unchecked exceptions the containers throw. */
  datatype Exception =
    | IllegalArgument    // java.lang.IllegalArgumentException
    | IndexOutOfBounds   // java.lang.IndexOutOfBoundsException
    | NoSuchElement      // java.util.NoSuchElementException
    | EmptyStack         // java.util.EmptyStackException
    | NullPointer        // java.lang.NullPointerException

  /** The outcome of a Java call: a returned value (`()` for `void`) or a thrown exception. */
  datatype Result<T> = Ok(value: T) | Err(error: Exception)
}
