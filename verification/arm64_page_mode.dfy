/** The ARM64 paging mode (arch/aarch64/paging/page_mode.rs): level
    geometry, page-number indexing and the descriptor operations the table
    walk uses.  Levels are numbered so that 0 is the leaf and 3 the root. */
module Arm64PageMode {
  import opened Bits
  import opened Address
  import opened PageMode
  import opened PageSize
  import opened PhysFrames
  import opened Arm64PageTable

  const PPN_BITS: nat := 36
  const MAX_LEVEL: Level := 3

  /** `get_align_for_level`: how many 4 KiB pages a mapping at this level
      covers; unimplemented (fatal) above level 3. */
  function AlignForLevel(l: Level): (r: PageAlign)
    requires l <= MAX_LEVEL
    ensures r.pages == Pow2(9 * l)
    ensures l == 0 <==> r.pages == 1
  {
    Pow2Constants();
    match l
    case 0 => PageAlign(1)
    case 1 => PageAlign(512)
    case 2 => PageAlign(512 * 512)
    case 3 => PageAlign(512 * 512 * 512)
  }

  /** Each level's span is 512 of the level below. */
  lemma AlignLadder(l: Level)
    requires 1 <= l <= MAX_LEVEL
    ensures AlignForLevel(l).pages == 512 * AlignForLevel(l - 1).pages
  {
    Pow2Constants();
    Pow2Add(9 * (l - 1), 9);
  }

  /** Levels `hi`, `hi - 1`, ..., `lo`: the reference for the visit orders. */
  function Descending(hi: int, lo: nat): (r: seq<Level>)
    requires lo <= hi + 1 && hi < 0x100
    ensures |r| == hi + 1 - lo
    ensures forall i :: 0 <= i < |r| ==> r[i] == hi - i
    decreases hi + 1 - lo
  {
    if hi < lo then [] else [hi as Level] + Descending(hi - 1, lo)
  }

  /** `visit_levels_until(level)`: from level 2 down to `level`; defined for
      levels 0 to 2 only. */
  function VisitLevelsUntil(l: Level): (r: seq<Level>)
    requires l <= 2
    ensures r == Descending(2, l)
  {
    match l
    case 0 => [2, 1, 0]
    case 1 => [2, 1]
    case 2 => [2]
  }

  /** `visit_levels_before(level)`: the levels above `level`, root first. */
  function VisitLevelsBefore(l: Level): (r: seq<Level>)
    requires l <= MAX_LEVEL
    ensures r == Descending(3, l + 1)
  {
    match l
    case 0 => [3, 2, 1]
    case 1 => [3, 2]
    case 2 => [3]
    case 3 => []
  }

  /** `visit_levels_from(level)`: `level` and every level below it. */
  function VisitLevelsFrom(l: Level): (r: seq<Level>)
    requires l <= MAX_LEVEL
    ensures r == Descending(l, 0)
  {
    match l
    case 0 => [0]
    case 1 => [1, 0]
    case 2 => [2, 1, 0]
    case 3 => [3, 2, 1, 0]
  }

  /** The levels above `level` followed by `level` and those below it are
      the whole walk from the root to the leaf. */
  lemma BeforeThenFrom(l: Level)
    requires l <= MAX_LEVEL
    ensures VisitLevelsBefore(l) + VisitLevelsFrom(l) == Descending(3, 0)
  {}

  /** `visit_levels_until` starts one level below the root that
      `visit_levels_before` starts at: it is the tail of the full walk. */
  lemma UntilSkipsRoot(l: Level)
    requires l <= 2
    ensures VisitLevelsUntil(l)[0] == 2 != MAX_LEVEL
    ensures VisitLevelsBefore(l) + [l] == [MAX_LEVEL] + VisitLevelsUntil(l)
  {}

  /** `vpn_index(vpn, level)`: the nine index bits of `level`.  The shift
      amount must stay below 64. */
  function VpnIndex(vpn: VirtPageNum, l: Level): (r: nat)
    requires 9 * l < 64
    ensures r < 512 && r == Lo(Hi(vpn.n, 9 * l), 9)
  {
    Pow2Constants();
    AndLowOnes(Hi(vpn.n, 9 * l), 9);
    LoBound(Hi(vpn.n, 9 * l), 9);
    And(Hi(vpn.n, 9 * l), 511)
  }

  /** `vpn_level_index(vpn, level, idx)`: keep every bit above `level`'s
      index field, clear `level` and below, and add `idx` shifted into
      `level`'s place.
      The shifted index loses bits past 64; the addition must not overflow. */
  function VpnLevelIndex(vpn: VirtPageNum, l: Level, idx: u64): (r: VirtPageNum)
    requires l <= MAX_LEVEL
    requires Hi(vpn.n, 9 * l + 9) * Pow2(9 * l + 9) + (idx * Pow2(9 * l)) % WORD < WORD
    ensures idx < 512 ==> VpnIndex(r, l) == idx && Lo(r.n, 9 * l) == 0
    ensures idx < 512 ==> forall j: Level :: l < j <= MAX_LEVEL ==> VpnIndex(r, j) == VpnIndex(vpn, j)
    ensures idx < 512 ==> Hi(r.n, 9 * l + 9) == Hi(vpn.n, 9 * l + 9)
  {
    var k := 9 * l;
    Pow2Constants();
    Pow2Monotone(k + 9, 64);
    Pow2Monotone(k, 64);
    NotLowOnes(k + 9);
    AndNotLowOnes(vpn.n, k + 9);
    var r := VirtPageNum(And(vpn.n, Not(Pow2(k + 9) - 1)) + (idx * Pow2(k)) % WORD);
    if idx < 512 then
      LevelIndexFields(vpn.n, l, idx, r.n);
      r
    else
      r
  }

  lemma LevelIndexFields(v: nat, l: Level, idx: nat, x: nat)
    requires l <= MAX_LEVEL && idx < 512
    requires x == Hi(v, 9 * l + 9) * Pow2(9 * l + 9) + (idx * Pow2(9 * l)) % WORD
    ensures Lo(x, 9 * l) == 0 && Lo(Hi(x, 9 * l), 9) == idx
    ensures forall j: Level :: l < j <= MAX_LEVEL ==> Hi(x, 9 * j) == Hi(v, 9 * j)
    ensures Hi(x, 9 * l + 9) == Hi(v, 9 * l + 9)
  {
    var h := Hi(v, 9 * l + 9);
    var top := h * Pow2(9) + idx;
    LevelIndexJoin(l, h, idx, x);
    Multiple(top, 9 * l);
    assert Lo(top, 9) == idx && Hi(top, 9) == h by {
      Pow2Nine();
      HiLoOfJoin(h, idx, 9);
    }
    UpperFieldsKept(v, l, top, x);
    HiHi(x, 9 * l, 9);
  }

  lemma Pow2Nine()
    ensures Pow2(9) == 512
  {
    Pow2Constants();
  }

  /** The result is the kept upper bits and the index, shifted to the
      level's place. */
  lemma LevelIndexJoin(l: Level, h: nat, idx: nat, x: nat)
    requires l <= MAX_LEVEL && idx < 512
    requires x == h * Pow2(9 * l + 9) + (idx * Pow2(9 * l)) % WORD
    ensures x == (h * Pow2(9) + idx) * Pow2(9 * l)
  {
    ShiftedIndexFits(l, idx);
    RegroupShift(h, idx, 9 * l);
  }

  /** The fields above the level are those of `v`. */
  lemma UpperFieldsKept(v: nat, l: Level, top: nat, x: nat)
    requires l <= MAX_LEVEL
    requires Hi(x, 9 * l) == top && Hi(top, 9) == Hi(v, 9 * l + 9)
    ensures forall j: Level :: l < j <= MAX_LEVEL ==> Hi(x, 9 * j) == Hi(v, 9 * j)
  {
    forall j: Level | l < j <= MAX_LEVEL
      ensures Hi(x, 9 * j) == Hi(v, 9 * j)
    {
      HiHi(x, 9 * l, 9 * (j - l));
      HiHi(top, 9, 9 * (j - l) - 9);
      HiHi(v, 9 * l + 9, 9 * (j - l) - 9);
    }
  }

  /** A nine-bit index shifted to a level's place stays inside the word. */
  lemma ShiftedIndexFits(l: Level, idx: nat)
    requires l <= MAX_LEVEL && idx < 512
    ensures (idx * Pow2(9 * l)) % WORD == idx * Pow2(9 * l)
  {
    var p := Pow2(9 * l);
    assert p <= 0x800_0000 by {
      Pow2Monotone(9 * l, 27);
      Pow2Constants();
    }
    assert idx * p <= 511 * 0x800_0000 by {
      MulLe(idx, 511, p);
      MulLe(p, 0x800_0000, 511);
    }
    DivModUnique(idx * p, WORD, 0, idx * p);
  }

  lemma MulLe(a: nat, b: nat, c: nat)
    requires a <= b
    ensures a * c <= b * c && c * a <= c * b
  {}

  /** The kept upper bits and the index form one number shifted by `k`. */
  lemma RegroupShift(h: nat, idx: nat, k: nat)
    ensures h * Pow2(k + 9) + idx * Pow2(k) == (h * Pow2(9) + idx) * Pow2(k)
  {
    var p := Pow2(k);
    var q := Pow2(9);
    assert Pow2(k + 9) == p * q by {
      Pow2Add(k, 9);
    }
    assert h * (p * q) == (h * q) * p;
    assert (h * q + idx) * p == (h * q) * p + idx * p;
  }

  lemma MulLess(a: nat, b: nat, c: nat)
    requires a < b && c > 0
    ensures a * c < b * c
  {
    assert b * c == a * c + (b - a) * c;
  }

  /** `init_page_table`: a freshly zeroed table. */
  method InitPageTable(t: PageTable) returns (r: PageTable)
    ensures forall i :: 0 <= i < ENTRY_COUNT ==> IsUnused(r[i]) && !IsValid(r[i])
  {
    r := Zero(t);
    forall i | 0 <= i < ENTRY_COUNT
      ensures !IsValid(r[i])
    {
      TypeBits(r[i]);
    }
  }

  /** The 4 KiB frame whose start address is the page number shifted left. */
  function FrameOf(ppn: PhysPageNum): (f: PhysFrame)
    ensures f.size == Size4KiB && WellFormed(f)
    ensures f.start == PpnAddr(ppn)
  {
    PhysFrame(Size4KiB, PpnAddr(ppn))
  }

  lemma SmallFlags(x: nat)
    requires x < 0x1000
    ensures Mid(x) == 0
  {
    Pow2Constants();
    Small(x, 12);
    Small(0, 36);
  }

  /** `VALID::SET + TABLE_OR_BLOCK::SET`. */
  const TABLE_FLAGS: u64 := 3

  lemma TableFlags()
    ensures Or(VALID, TABLE) == TABLE_FLAGS
    ensures TestBit(TABLE_FLAGS, 0) && TestBit(TABLE_FLAGS, 1) && FlagsOnly(TABLE_FLAGS)
    ensures TestBit(VALID, 0) && !TestBit(VALID, 1) && FlagsOnly(VALID)
  {
    Pow2Constants();
    OrDisjoint(1, 1, 1);
    SmallFlags(3);
    SmallFlags(1);
    assert Hi(3, 1) == 1;
    assert Hi(1, 1) == 0;
  }

  /** `set_table(entry, ppn)`: a valid table descriptor pointing at the page
      `ppn`, whose page number is passed where a frame is expected and read as
      that frame's address. */
  function SetTable(e: Entry, ppn: PhysPageNum): (r: Entry)
    ensures IsValid(r) && !IsBlock(r)
    ensures ppn.n < Pow2(PPN_BITS) ==> Addr(r) == PpnAddr(ppn)
  {
    TableFlags();
    Pow2Constants();
    SetAddrTypeBits(e, PpnAddr(ppn), TABLE_FLAGS);
    SetFrame(e, FrameOf(ppn), TABLE_FLAGS)
  }

  /** `set_frame(entry, ppn, level, flags)`: a valid block descriptor at
      levels 1 and 2, a valid page descriptor (TABLE set) at level 3, and
      unimplemented (fatal) at any other level, the leaf level 0 included. */
  function SetFrameAt(e: Entry, ppn: PhysPageNum, l: Level, flags: u64): (r: Entry)
    requires 1 <= l <= MAX_LEVEL
    requires l <= 2 ==> !TestBit(flags, 1)
    ensures IsValid(r)
    ensures IsBlock(r) <==> l <= 2
    ensures ppn.n < Pow2(PPN_BITS) && FlagsOnly(flags) ==> Addr(r) == PpnAddr(ppn)
  {
    TableFlags();
    PpnAddrFits(ppn);
    if l <= 2 then
      OrFlags(VALID, flags);
      SetAddrTypeBits(e, PpnAddr(ppn), Or(VALID, flags));
      SetBlock(e, PpnAddr(ppn), Or(VALID, flags))
    else
      OrFlags(TABLE_FLAGS, flags);
      SetAddrTypeBits(e, PpnAddr(ppn), Or(TABLE_FLAGS, flags));
      SetFrame(e, FrameOf(ppn), Or(TABLE_FLAGS, flags))
  }

  /** A page number of the descriptor's width has an address below 2^48. */
  lemma PpnAddrFits(ppn: PhysPageNum)
    ensures ppn.n < Pow2(PPN_BITS) ==> PpnAddr(ppn).raw < ADDR_LIMIT
  {
    Pow2Constants();
  }

  /** ORing the caller's flags onto a type pattern: a word, bits 0 and 1
      from either side, and no address bits when neither has any. */
  lemma OrFlags(base: u64, flags: u64)
    requires FlagsOnly(base)
    ensures Or(base, flags) < WORD
    ensures TestBit(Or(base, flags), 0) <==> TestBit(base, 0) || TestBit(flags, 0)
    ensures TestBit(Or(base, flags), 1) <==> TestBit(base, 1) || TestBit(flags, 1)
    ensures FlagsOnly(flags) ==> FlagsOnly(Or(base, flags))
  {
    assert Or(base, flags) < WORD by {
      Pow2Constants();
      OrBound(base, flags, 64);
    }
    OrBit(base, flags, 0);
    OrBit(base, flags, 1);
    FieldsOr(base, flags);
    OrZero(0);
  }

  /** `get_ppn`: the page number of the descriptor's address field. */
  function GetPpn(e: Entry): (r: PhysPageNum)
    ensures r.n == Mid(e.bits) && r.n < Pow2(PPN_BITS)
  {
    Pow2Constants();
    FieldsJoin(e.bits);
    DivModUnique(Addr(e).raw, FRAME_SIZE, Mid(e.bits), 0);
    PpnOf(Addr(e))
  }

  /** Whatever `set_table` or `set_frame` wrote, `get_ppn` reads back, for
      every page number that fits the 36 page-number bits. */
  lemma GetPpnRoundTrip(e: Entry, ppn: PhysPageNum, l: Level, flags: u64)
    requires ppn.n < Pow2(PPN_BITS)
    ensures GetPpn(SetTable(e, ppn)) == ppn
    ensures 1 <= l <= MAX_LEVEL && (l <= 2 ==> !TestBit(flags, 1)) && FlagsOnly(flags) ==>
      GetPpn(SetFrameAt(e, ppn, l, flags)) == ppn
  {
    Pow2Constants();
    PpnRoundTrip(ppn, PhysAddr(0));
    DivModUnique(PpnAddr(ppn).raw, FRAME_SIZE, ppn.n, 0);
  }
}
