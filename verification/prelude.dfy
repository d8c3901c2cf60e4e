/** Types shared by every part of the model. */
module Prelude {

  /** One byte: an element of a Uint8Array, and a symbol of the Huffman alphabet. */
  type Byte = x: int | 0 <= x < 256

  /** A JavaScript value that may be `undefined` (an empty array read at index 0). */
  datatype Option<T> = None | Some(value: T)

  /** The only failure the core raises: a property read on `undefined` or `null`. */
  datatype Error = TypeError

  /** The outcome of an operation that may throw. */
  datatype Result<T> = Ok(value: T) | Err(error: Error)
}
