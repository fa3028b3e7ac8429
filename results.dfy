/**
 * The ways an operation of the atomic type layer can end: a Java reference
 * that may be null, a value or a thrown error, and the 0-or-1 item result
 * sequence that every type's `constructor` hands back.
 */
module Results {

  /** A Java reference that may be null. */
  datatype Option<T> = None | Some(value: T)

  /** The errors the casts and the duration arithmetic raise. */
  datatype Error =
    | XTTE0570                                   // text is not an xs:dayTimeDuration
    | FORG0006                                   // argument of the wrong type or value
    | FOCA0005                                   // NaN operand
    | FODT0001                                   // duration divided by zero
    | OutOfRange(text: string, typeName: string) // RuntimeException naming value and type
    | NumberFormat                               // RuntimeException wrapping a NumberFormatException
    | NullPointer                                // NullPointerException
    | ClassCast                                  // ClassCastException
    | Arithmetic                                 // ArithmeticException from BigDecimal.divide

  /** A value, or the error thrown instead of returning one. */
  datatype Result<T> = Ok(value: T) | Err(error: Error)

  /**
   * What a type's `constructor` gives back: an empty sequence, a sequence of
   * one value, a Java null in place of the sequence, or a thrown error.
   */
  datatype Outcome<T> = Empty | One(value: T) | Null | Raised(error: Error)
}
