/** Numbers of the machine. */
module Machine {
  // Number of values of a uint64_t.
  const WORD: nat := 0x1_0000_0000_0000_0000
  const PAGE_SIZE: nat := 4096
}
