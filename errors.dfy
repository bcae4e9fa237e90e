/** Outcome types shared by the compressor model. */
module Errors {

  /** The ways one compression run can fail. The source crashes or exits in
      each of these situations; the model reports them as values instead. */
  datatype Error =
    | EmptyAlphabet            // no symbol at all: the tree has no root
    | UnknownSymbol(c: char)   // a symbol of the text has no code in the table
    | MisalignedBitstream      // the bit string is not a whole number of bytes

  datatype Result<T> = Success(value: T) | Failure(error: Error)

  datatype Option<T> = None | Some(value: T)
}
