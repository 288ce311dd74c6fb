/** Basic vocabulary shared by every module of the model: bytes and an
    optional value standing for C++ null pointers, Python `None` and
    JavaScript `undefined`. */
module Basics {

  /** One octet of an executable image or of a resource payload. */
  newtype byte = x: int | 0 <= x < 256

  type Bytes = seq<byte>

  /** The conventional Some/None datatype, used in place of a null. */
  datatype Option<+T> = None | Some(value: T)
}
