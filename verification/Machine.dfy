/** Sizes the kernel's parts agree on. */
module Machine {
  const PAGE_SIZE: nat := 4096
  const U32: nat := 0x1_0000_0000
  const U64: nat := 0x1_0000_0000_0000_0000
}
