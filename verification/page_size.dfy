/** The three ARM64 page sizes (arch/aarch64/paging/page.rs). */
module PageSize {
  import opened Bits
  import Align

  datatype Size = Size4KiB | Size2MiB | Size1GiB

  /** `PageSize::SIZE` in bytes. */
  function Bytes(s: Size): (r: u64)
    ensures 0x1000 <= r <= 0x4000_0000 && r % 0x1000 == 0
  {
    match s
    case Size4KiB => 4096
    case Size2MiB => 4096 * 512
    case Size1GiB => 4096 * 512 * 512
  }

  /** Every size is a power of two, so it can serve as an alignment. */
  lemma BytesPowerOfTwo(s: Size)
    ensures Align.IsPowerOfTwo(Bytes(s))
  {
    Pow2Constants();
    Align.PowerOfTwoOf(12);
    Align.PowerOfTwoOf(21);
    Align.PowerOfTwoOf(30);
  }

  /** Each size is 512 of the next smaller one, and 4 KiB is one frame. */
  lemma SizeLadder()
    ensures Bytes(Size4KiB) == 0x1000
    ensures Bytes(Size2MiB) == 512 * Bytes(Size4KiB)
    ensures Bytes(Size1GiB) == 512 * Bytes(Size2MiB)
  {}
}
