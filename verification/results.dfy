/** Failure-carrying values used where the Java code returns null or throws. */
module Results {

  /** A value that may be absent (a Java reference that may be null). */
  datatype Option<+T> = None | Some(value: T)

  /** The exceptions the modelled code can raise. */
  datatype Error =
    | DivideByZero      // java.lang.ArithmeticException from integer `/`
    | EndOfInput        // java.io.EOFException from DataInput.readInt
    | ImageNotReady     // RuntimeException "Image ... not ready" in combineImages
    | EmptyImage        // IllegalArgumentException from a BufferedImage with a side of 0

  /** Either a normal result or the exception the Java code would throw. */
  datatype Result<+R> = Success(value: R) | Failure(error: Error)
}
