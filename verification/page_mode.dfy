/** Page levels, page numbers and page alignments (mm/page_mode.rs).  Page
    numbers are counted in 4 KiB frames, the only frame size of the ARM64 mode;
    mm_type.rs repeats `PhysPageNum` and `VirtPageNum` with the same shift. */
module PageMode {
  import opened Bits
  import opened Address

  /** `PageLevel(u8)`: 0 is the leaf level, higher numbers are closer to the root. */
  type Level = n: nat | n < 0x100

  /** `PageLevel::leaf_level()`. */
  const LEAF_LEVEL: Level := 0

  /** `FRAME_SIZE_BITS` of the ARM64 mode. */
  const FRAME_SIZE_BITS: nat := 12
  const FRAME_SIZE: nat := 0x1000

  datatype PhysPageNum = PhysPageNum(n: u64)
  datatype VirtPageNum = VirtPageNum(n: u64)

  /** `PageAlign(usize)`: an alignment counted in pages. */
  datatype PageAlign = PageAlign(pages: u64)

  /** `PageAlign::from(usize)`. */
  function AlignFrom(v: u64): (a: PageAlign)
    ensures a.pages == v
  {
    PageAlign(v)
  }

  /** `usize::from(PageAlign)`. */
  function AlignValue(a: PageAlign): (v: u64)
    ensures AlignFrom(v) == a
  {
    a.pages
  }

  /** The two conversions are mutual inverses. */
  lemma AlignConversionsInverse(v: u64, a: PageAlign)
    ensures AlignValue(AlignFrom(v)) == v && AlignFrom(AlignValue(a)) == a
  {}

  /** `ppn << FRAME_SIZE_BITS` on a 64-bit word: the top twelve bits fall off. */
  function PpnAddr(p: PhysPageNum): (r: PhysAddr)
    ensures r.raw % FRAME_SIZE == 0
    ensures p.n < WORD / FRAME_SIZE ==> r.raw == p.n * FRAME_SIZE
  {
    ShiftLost(p.n);
    PhysAddr((p.n * FRAME_SIZE) % WORD)
  }

  lemma ShiftLost(n: u64)
    ensures ((n * FRAME_SIZE) % WORD) % FRAME_SIZE == 0
  {
    var q := n / (WORD / FRAME_SIZE);
    var m := n % (WORD / FRAME_SIZE);
    assert n * FRAME_SIZE == q * WORD + m * FRAME_SIZE;
    DivModUnique(n * FRAME_SIZE, WORD, q, m * FRAME_SIZE);
    DivModUnique(m * FRAME_SIZE, FRAME_SIZE, m, 0);
  }

  /** `PhysPageNum::new(paddr)`: `paddr >> FRAME_SIZE_BITS`. */
  function PpnOf(a: PhysAddr): (r: PhysPageNum)
    ensures r.n * FRAME_SIZE <= a.raw < r.n * FRAME_SIZE + FRAME_SIZE
  {
    PhysPageNum(a.raw / FRAME_SIZE)
  }

  /** A page number survives the trip through its address when the shift
      loses nothing; an address survives the reverse trip exactly when it is
      frame aligned. */
  lemma PpnRoundTrip(p: PhysPageNum, a: PhysAddr)
    ensures p.n < WORD / FRAME_SIZE ==> PpnOf(PpnAddr(p)) == p
    ensures PpnAddr(PpnOf(a)) == a <==> a.raw % FRAME_SIZE == 0
  {}

  /** `next_page`: a wrapping increment. */
  function NextPage(p: PhysPageNum): (r: PhysPageNum)
    ensures p.n < WORD_MAX ==> r.n == p.n + 1
    ensures p.n == WORD_MAX ==> r.n == 0
  {
    PhysPageNum((p.n + 1) % WORD)
  }

  /** `is_within_range(begin, end)`: `[begin, end)`, or, when `end` is below
      `begin`, the range that wraps around the top of the word. */
  predicate IsWithinRange(p: PhysPageNum, begin: PhysPageNum, end: PhysPageNum) {
    if begin.n <= end.n then begin.n <= p.n < end.n
    else begin.n <= p.n || p.n < end.n
  }

  /** Distance from `a` forward to `b` on the ring of 64-bit page numbers. */
  function RingDistance(a: u64, b: u64): (r: nat)
    ensures r < WORD && (a + r) % WORD == b
  {
    if a <= b then b - a else WORD + b - a
  }

  /** The range test is "fewer steps from `begin` than `end` is", counted on
      the ring; both wrapping and non-wrapping ranges are that one set. */
  lemma WithinRangeIsRingOrder(p: PhysPageNum, begin: PhysPageNum, end: PhysPageNum)
    ensures IsWithinRange(p, begin, end) <==>
      RingDistance(begin.n, p.n) < RingDistance(begin.n, end.n)
  {}

  /** Stepping with `next_page` advances one position around the ring. */
  lemma NextPageStepsRing(p: PhysPageNum, begin: PhysPageNum)
    ensures RingDistance(begin.n, NextPage(p).n) == (RingDistance(begin.n, p.n) + 1) % WORD
  {}

  /** `VirtPageNum::addr` shifts like `PhysPageNum::addr` but returns a
      `VirtPageNum` holding the byte address. */
  function VpnAddr(v: VirtPageNum): (r: VirtPageNum)
    ensures r.n % FRAME_SIZE == 0
    ensures v.n < WORD / FRAME_SIZE ==> r.n == v.n * FRAME_SIZE
  {
    ShiftLost(v.n);
    VirtPageNum((v.n * FRAME_SIZE) % WORD)
  }

  /** `VirtPageNum::new(vaddr)`: `vaddr >> FRAME_SIZE_BITS`. */
  function VpnOf(a: VirtAddr): (r: VirtPageNum)
    ensures r.n * FRAME_SIZE <= a.raw < r.n * FRAME_SIZE + FRAME_SIZE
  {
    VirtPageNum(a.raw / FRAME_SIZE)
  }

  lemma VpnRoundTrip(v: VirtPageNum, a: VirtAddr)
    ensures v.n < WORD / FRAME_SIZE ==> VpnOf(VirtAddr(VpnAddr(v).n)) == v
    ensures VpnAddr(VpnOf(a)).n == a.raw <==> a.raw % FRAME_SIZE == 0
  {}
}
