/** The page-number frame of mm_type.rs.  Its address and page-number types
    repeat mm/address.rs and mm/page_mode.rs line for line and are the
    `Address` and `PageMode` types. */
module MmType {
  import opened Bits
  import opened Address
  import opened PageMode

  /** A physical frame named by its page number. */
  datatype PhysFrame = PhysFrame(ppn: PhysPageNum)

  /** `containing_address`: the frame of the page holding the address. */
  function ContainingAddress(a: PhysAddr): (r: PhysFrame)
    ensures r.ppn.n * FRAME_SIZE <= a.raw < r.ppn.n * FRAME_SIZE + FRAME_SIZE
  {
    PhysFrame(PpnOf(a))
  }

  /** A frame's own start address leads back to it, and every address inside
      the frame leads to the same frame. */
  lemma ContainingRoundTrip(f: PhysFrame, off: nat)
    requires f.ppn.n < WORD / FRAME_SIZE && off < FRAME_SIZE
    ensures ContainingAddress(PpnAddr(f.ppn)) == f
    ensures ContainingAddress(PhysAddr(PpnAddr(f.ppn).raw + off)) == f
  {
    DivModUnique(PpnAddr(f.ppn).raw + off, FRAME_SIZE, f.ppn.n, off);
  }
}
