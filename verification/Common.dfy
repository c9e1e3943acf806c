/** What several modules need. */
module Common {

  datatype Option<T> = None | Some(value: T)

  /** A byte as a number. */
  type Byte = x: int | 0 <= x < 256

  /** A byte as its bits. */
  type Octet = bv8

  const INT_MIN := -0x8000_0000
  const INT_MAX := 0x7FFF_FFFF
}
