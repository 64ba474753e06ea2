/** Small building blocks shared by the other modules: an optional value
    (standing for a Java reference that may be null) and Java's fixed-width
    integer types. */
module Base {

  datatype Option<+T> = None | Some(value: T)

  /** Java `int`. */
  newtype int32 = x: int | -0x8000_0000 <= x < 0x8000_0000

  /** Java `long`. */
  newtype int64 = x: int | -0x8000_0000_0000_0000 <= x < 0x8000_0000_0000_0000
}
