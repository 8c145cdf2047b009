// Definitions that several parts share.
module Basics {
  // The range of a 32-bit number.
  const U32: nat := 0x1_0000_0000

  // The frame the kernel is loaded at, 1 MiB: its image begins there and its bitmap follows it.
  const KERNEL_FRAME: nat := 0x100

  datatype Option<+T> = None | Some(value: T)
}
