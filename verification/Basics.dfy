/** Types shared by several components. */
module Basics {

  /** uint8_t in messages and checksums. */
  newtype byte = x: int | 0 <= x < 256

  datatype Option<+T> = None | Some(value: T)

  /** P4_BG_MEM_CELL_SIZE: the bytes of a message cell. */
  const CELL_SIZE: nat := 2048
}
