/** The kernel's linear physical/virtual mapping (`phys_to_virt` and
    `virt_to_phys` of arch/aarch64/mm.rs; mm_type.rs repeats both). */
module ArchMmMap {
  import opened Bits
  import opened ArchMm
  import opened Address

  /** `phys_to_virt`: checked add of KERNEL_BASE (fatal on overflow).  The
      result is built directly, bypassing `VirtAddr::from`'s mask. */
  function PhysToVirt(p: PhysAddr): (r: VirtAddr)
    requires p.raw + KERNEL_BASE < WORD
    ensures r.raw >= KERNEL_BASE && r.raw - KERNEL_BASE == p.raw
  {
    VirtAddr(p.raw + KERNEL_BASE)
  }

  /** `virt_to_phys`: checked subtraction of KERNEL_BASE (fatal below it). */
  function VirtToPhys(v: VirtAddr): (r: PhysAddr)
    requires v.raw >= KERNEL_BASE
    ensures r.raw + KERNEL_BASE == v.raw
  {
    PhysAddr(v.raw - KERNEL_BASE)
  }

  /** Every 48-bit physical address has a kernel virtual address. */
  lemma PhysToVirtDefined(p: PhysAddr)
    requires p.raw < ADDR_LIMIT
    ensures p.raw + KERNEL_BASE < WORD
  {}

  /** The two conversions are mutual inverses wherever they are defined. */
  lemma RoundTrips(p: PhysAddr, v: VirtAddr)
    ensures p.raw + KERNEL_BASE < WORD ==> VirtToPhys(PhysToVirt(p)) == p
    ensures v.raw >= KERNEL_BASE ==> PhysToVirt(VirtToPhys(v)) == v
  {}

  /** A converted address is never inside the 48-bit window that
      `VirtAddr::from` produces. */
  lemma PhysToVirtNotMasked(p: PhysAddr)
    requires p.raw + KERNEL_BASE < WORD
    ensures VirtFrom(PhysToVirt(p).raw) != PhysToVirt(p)
  {}
}
