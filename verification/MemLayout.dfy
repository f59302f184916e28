/** The user part of an address space. */
module MemLayout {

  const PGSIZE: nat := 4096
  const USERBASE: nat := 0x20_0000
  const USERTOP: nat := 0xB000_0000

  predicate UserAccess(start: int, end: int) {
    USERBASE <= start < end <= USERTOP
  }
}
