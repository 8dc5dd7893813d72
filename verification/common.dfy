/** What every service shares: opaque timestamps and the ways an operation can fail. */
module Common {

  /** `LocalDateTime.now()` is an input of the model; its value is opaque. */
  type Stamp = nat

  /** The exceptions the services throw, one variant each. */
  datatype Error =
    | Invalid(messages: set<string>)   // ConstraintViolationException carrying every violated rule
    | NotFound(message: string)        // IllegalArgumentException("... not found")
    | NoSuchElement                    // Optional.get() on an empty Optional
    | NullPointer                      // unboxing a null Boolean
    | IndexOutOfBounds                 // List.subList past the end of the list
    | DuplicateElement                 // Set.of given the same element twice
    | SqlError                         // the database rejected the statement
}
