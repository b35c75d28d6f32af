/** The memory map of nr32-common/src/memmap.rs, as far as the modules of this project need it. */
module MemoryMap {
  const RAM_LEN: nat := 0x20_0000
  const ROM_BASE: nat := 0x2000_0000
  const ROM_LEN: nat := 0x400_0000

  predicate InRam(addr: nat) { addr < RAM_LEN }
  predicate InRom(addr: nat) { ROM_BASE <= addr < ROM_BASE + ROM_LEN }
}
