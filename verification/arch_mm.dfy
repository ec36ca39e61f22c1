/** Memory constants of the AArch64 port (arch/aarch64/mm.rs). */
module ArchMm {
  import opened Bits

  const PAGE_SIZE_BITS: nat := 12
  const PAGE_SIZE: nat := 0x1000
  const VA_WIDTH: nat := 48
  const PA_WIDTH: nat := 48
  /** Start of the kernel's linear window onto physical memory. */
  const KERNEL_BASE: u64 := 0xffff_0000_0000_0000

  lemma Constants()
    ensures PAGE_SIZE == Pow2(PAGE_SIZE_BITS)
    ensures Pow2(VA_WIDTH) == Pow2(PA_WIDTH) == 0x1_0000_0000_0000
    ensures KERNEL_BASE == WORD - Pow2(PA_WIDTH)
  {
    Pow2Constants();
  }
}
