/** Option and Result values, used where the Java code returns null or throws. */
module Wrappers {

  /** A value that may be absent (a Java reference that may be null). */
  datatype Option<+T> = None | Some(value: T)

  /** The exceptions the modelled Java code can raise on its own. */
  datatype JavaError =
    | EndOfFile               // a DataInputStream read ran past the end of the bytes
    | NegativeLength          // readNBytes was given a negative length
    | NegativeArraySize       // `new int[budget + 1][]` with a negative size
    | IndexOutOfBounds        // an array was indexed outside its bounds
    | IllegalArgument         // Stream.limit was given a negative count
    | NullPointer             // a null accumulator was dereferenced
    | UtfDataFormat           // writeUTF's encoding exceeds 65535 bytes, or readUTF met malformed bytes
    | UnpairedSurrogate       // readUTF decoded a lone surrogate, which a Unicode string cannot hold
    | IoFailure               // the file system refused a write
    | OutOfMemory             // a list grew past what the JVM can allocate

  /** Either a value or the exception that the Java code would have thrown. */
  datatype Result<+T> = Ok(value: T) | Err(error: JavaError)
}
