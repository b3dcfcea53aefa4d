/**
  * The machine integers, the page size and the error numbers the models share.
  */
module MachineTypes {
  type Byte = x: int | 0 <= x < 0x100
  type U16 = x: int | 0 <= x < 0x1_0000
  type U32 = x: int | 0 <= x < 0x1_0000_0000
  type U64 = x: int | 0 <= x < 0x1_0000_0000_0000_0000

  const PAGE_SIZE := 4096

  const EPERM := 1
  const ENOMEM := 12
  const EACCES := 13
  const EINVAL := 22
}
