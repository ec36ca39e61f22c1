/** Masked physical and virtual addresses (mm/address.rs).  mm_type.rs holds
    a verbatim copy of the same two types and operations; both are modelled by
    this module. */
module Address {
  import opened Bits
  import opened ArchMm
  import Align

  /** Both wrappers have a public `usize` field, so any word is a value. */
  datatype PhysAddr = PhysAddr(raw: u64)
  datatype VirtAddr = VirtAddr(raw: u64)

  const ADDR_LIMIT: nat := 0x1_0000_0000_0000

  lemma WidthMask(v: u64)
    ensures Pow2(PA_WIDTH) - 1 == Pow2(VA_WIDTH) - 1 == ADDR_LIMIT - 1
    ensures And(v, ADDR_LIMIT - 1) == v % ADDR_LIMIT
  {
    Constants();
    AndLowOnes(v, 48);
    LoIsMod(v, 48);
  }

  /** `PhysAddr::from(usize)`: keep the low PA_WIDTH bits. */
  function PhysFrom(v: u64): (r: PhysAddr)
    ensures r.raw == v % ADDR_LIMIT
  {
    WidthMask(v);
    PhysAddr(And(v, Pow2(PA_WIDTH) - 1))
  }

  /** `VirtAddr::from(usize)`: keep the low VA_WIDTH bits. */
  function VirtFrom(v: u64): (r: VirtAddr)
    ensures r.raw == v % ADDR_LIMIT
  {
    WidthMask(v);
    VirtAddr(And(v, Pow2(VA_WIDTH) - 1))
  }

  /** Masking changes nothing below the width, and masking twice is masking once. */
  lemma FromKeepsNarrow(v: u64)
    ensures v < ADDR_LIMIT <==> PhysFrom(v).raw == v
    ensures v < ADDR_LIMIT <==> VirtFrom(v).raw == v
    ensures PhysFrom(PhysFrom(v).raw) == PhysFrom(v)
    ensures VirtFrom(VirtFrom(v).raw) == VirtFrom(v)
  {}

  /** `page_offset(align)`: `addr & (align - 1)`.  No power-of-two check here;
      `align - 1` underflows for a zero alignment. */
  function PageOffset(addr: u64, align: u64): (r: u64)
    requires align >= 1
    ensures r <= addr && r < align
    ensures Align.IsPowerOfTwo(align) ==> r == addr % align
  {
    Align.Offset(addr, align)
  }

  lemma OffsetIsRemainder(addr: u64, align: u64)
    requires align >= 1
    ensures Align.IsPowerOfTwo(align) ==> And(addr, align - 1) == addr % align
  {
    if Align.IsPowerOfTwo(align) {
      Align.MaskIsRemainder(addr, align);
    }
  }

  /** `aligned(align)`: the page offset is zero. */
  predicate Aligned(addr: u64, align: u64)
    requires align >= 1
  {
    PageOffset(addr, align) == 0
  }

  lemma AlignedIsMultiple(addr: u64, align: u64)
    requires Align.IsPowerOfTwo(align)
    ensures Aligned(addr, align) <==> addr % align == 0
  {}

  function PhysFloor(a: PhysAddr, align: u64): (r: PhysAddr)
    requires Align.IsPowerOfTwo(align)
    ensures r.raw <= a.raw && r.raw % align == 0 && a.raw - r.raw < align
  {
    PhysAddr(Align.Floor(a.raw, align))
  }

  function PhysCeil(a: PhysAddr, align: u64): (r: PhysAddr)
    requires Align.IsPowerOfTwo(align) && Align.CeilDefined(a.raw, align)
    ensures a.raw <= r.raw && r.raw % align == 0 && r.raw - a.raw < align
    ensures a.raw % align == 0 <==> r == a
  {
    PhysAddr(Align.Ceil(a.raw, align))
  }

  function VirtFloor(a: VirtAddr, align: u64): (r: VirtAddr)
    requires Align.IsPowerOfTwo(align)
    ensures r.raw <= a.raw && r.raw % align == 0 && a.raw - r.raw < align
  {
    VirtAddr(Align.Floor(a.raw, align))
  }

  function VirtCeil(a: VirtAddr, align: u64): (r: VirtAddr)
    requires Align.IsPowerOfTwo(align) && Align.CeilDefined(a.raw, align)
    ensures a.raw <= r.raw && r.raw % align == 0 && r.raw - a.raw < align
    ensures a.raw % align == 0 <==> r == a
  {
    VirtAddr(Align.Ceil(a.raw, align))
  }

  /** `PhysAddr + usize`: a plain `+` (which overflows only past 2^64) and then
      the width mask. */
  function PhysAdd(a: PhysAddr, rhs: u64): (r: PhysAddr)
    requires a.raw + rhs < WORD
    ensures r.raw == (a.raw + rhs) % ADDR_LIMIT
  {
    PhysFrom(a.raw + rhs)
  }

  /** `PhysAddr - usize`: checked subtraction (fatal on underflow), then the mask. */
  function PhysSub(a: PhysAddr, rhs: u64): (r: PhysAddr)
    requires rhs <= a.raw
    ensures r.raw == (a.raw - rhs) % ADDR_LIMIT
  {
    PhysFrom(a.raw - rhs)
  }

  function VirtAdd(a: VirtAddr, rhs: u64): (r: VirtAddr)
    requires a.raw + rhs < WORD
    ensures r.raw == (a.raw + rhs) % ADDR_LIMIT
  {
    VirtFrom(a.raw + rhs)
  }

  function VirtSub(a: VirtAddr, rhs: u64): (r: VirtAddr)
    requires rhs <= a.raw
    ensures r.raw == (a.raw - rhs) % ADDR_LIMIT
  {
    VirtFrom(a.raw - rhs)
  }

  /** Within the 48-bit window, adding and then subtracting the same amount
      returns the original address, and so does the reverse. */
  lemma AddSubRoundTrip(a: PhysAddr, k: u64)
    requires a.raw + k < ADDR_LIMIT
    ensures PhysSub(PhysAdd(a, k), k) == a
    ensures VirtSub(VirtAdd(VirtAddr(a.raw), k), k) == VirtAddr(a.raw)
  {
    DivModUnique(a.raw + k, ADDR_LIMIT, 0, a.raw + k);
    DivModUnique(a.raw, ADDR_LIMIT, 0, a.raw);
  }

  lemma SubAddRoundTrip(a: PhysAddr, k: u64)
    requires k <= a.raw < ADDR_LIMIT
    ensures PhysAdd(PhysSub(a, k), k) == a
    ensures VirtAdd(VirtSub(VirtAddr(a.raw), k), k) == VirtAddr(a.raw)
  {
    DivModUnique(a.raw - k, ADDR_LIMIT, 0, a.raw - k);
    DivModUnique(a.raw, ADDR_LIMIT, 0, a.raw);
  }

  /** Past the 48-bit window the sum wraps around inside it. */
  lemma AddWraps(a: PhysAddr, k: u64)
    requires a.raw < ADDR_LIMIT && k < ADDR_LIMIT && ADDR_LIMIT <= a.raw + k
    ensures PhysAdd(a, k).raw == a.raw + k - ADDR_LIMIT
  {}
}
