/** Small helper types shared by the other modules. */
module Wrappers {

  /** The conventional Some/None datatype, used for decoders that may reject their input. */
  datatype Option<+T> = None | Some(value: T)
}

module Bytes {

  /** An octet, as Python's `bytes` holds them. */
  type Byte = b: int | 0 <= b < 256
}
