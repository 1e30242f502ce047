// What every part of the model shares: optional values and the widths of C's unsigned integers.
module Common {
  datatype Option<+T> = None | Some(value: T)

  const U32: nat := 0x1_0000_0000
  const U64: nat := 0x1_0000_0000_0000_0000
}
