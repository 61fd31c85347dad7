/** What the code and the standard both have names for: the flags of a directive. */
module Directives {
  datatype Option<T> = None | Some(value: T)

  /** The flags of a directive; the C code keeps them as bits of one word. */
  datatype Flags = Flags(
    zeropad: bool, left: bool, plus: bool, space: bool, hash: bool, upper: bool,
    chr: bool, short: bool, long: bool, longLong: bool, precision: bool)

  const NO_FLAGS := Flags(false, false, false, false, false, false, false, false, false, false, false)
}
