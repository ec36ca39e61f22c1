/** ARM64 translation-table descriptors and tables
    (arch/aarch64/paging/page_table.rs).  A descriptor is a 64-bit word: bits
    0..11 and 48..63 are attributes, bits 12..47 the output address.  The flag
    values the source builds with tock-registers' `FieldValue` are modelled by
    their `value` word. */
module Arm64PageTable {
  import opened Bits
  import opened Wrappers
  import opened Address
  import opened PageSize
  import opened PhysFrames

  /** `VALID::SET` and `TABLE_OR_BLOCK::SET` (bits 0 and 1). */
  const VALID: u64 := 1
  const TABLE: u64 := 2
  const ADDR_MASK: u64 := 0x0000_ffff_ffff_f000
  const PGFLAG_MASK: u64 := 0xffff_0000_0000_0fff
  const ENTRY_COUNT: nat := 512

  datatype FrameError = FrameNotPresent | HugeFrame

  datatype Entry = Entry(bits: u64)

  // The three fields of a descriptor word.

  function Low(x: nat): nat { Lo(x, 12) }
  function Mid(x: nat): nat { Lo(Hi(x, 12), 36) }
  function High(x: nat): nat { Hi(x, 48) }

  function Join(h: nat, m: nat, l: nat): nat {
    h * 0x1_0000_0000_0000 + m * 0x1000 + l
  }

  lemma FieldsJoin(x: nat)
    ensures x == Join(High(x), Mid(x), Low(x))
    ensures Low(x) < 0x1000 && Mid(x) < 0x10_0000_0000
    ensures x < WORD ==> High(x) < 0x1_0000
  {
    Pow2Constants();
    HiLoJoin(x, 12);
    HiLoJoin(Hi(x, 12), 36);
    HiHi(x, 12, 36);
    LoBound(x, 12);
    LoBound(Hi(x, 12), 36);
    if x < WORD {
      HiBound(x, 48, 16);
    }
  }

  lemma FieldsOfJoin(h: nat, m: nat, l: nat)
    requires l < 0x1000 && m < 0x10_0000_0000
    ensures Low(Join(h, m, l)) == l && Mid(Join(h, m, l)) == m && High(Join(h, m, l)) == h
  {
    Pow2Constants();
    var x := Join(h, m, l);
    assert x == (h * 0x10_0000_0000 + m) * 0x1000 + l;
    HiLoOfJoin(h * 0x10_0000_0000 + m, l, 12);
    HiLoOfJoin(h, m, 36);
    HiHi(x, 12, 36);
  }

  lemma FieldsAnd(a: nat, b: nat)
    ensures Low(And(a, b)) == And(Low(a), Low(b))
    ensures Mid(And(a, b)) == And(Mid(a), Mid(b))
    ensures High(And(a, b)) == And(High(a), High(b))
  {
    AndLo(a, b, 12);
    AndHi(a, b, 12);
    AndLo(Hi(a, 12), Hi(b, 12), 36);
    AndHi(a, b, 48);
  }

  lemma FieldsOr(a: nat, b: nat)
    ensures Low(Or(a, b)) == Or(Low(a), Low(b))
    ensures Mid(Or(a, b)) == Or(Mid(a), Mid(b))
    ensures High(Or(a, b)) == Or(High(a), High(b))
  {
    OrLo(a, b, 12);
    OrHi(a, b, 12);
    OrLo(Hi(a, 12), Hi(b, 12), 36);
    OrHi(a, b, 48);
  }

  /** AND with a field of all ones keeps the field; with zero it clears it. */
  lemma AndOnes(x: nat, k: nat)
    requires x < Pow2(k)
    ensures And(x, Pow2(k) - 1) == x && And(x, 0) == 0 && Or(x, 0) == x
  {
    AndLowOnes(x, k);
    Small(x, k);
    AndZero(x);
    OrZero(x);
  }

  lemma MaskFields()
    ensures Low(ADDR_MASK) == 0 && Mid(ADDR_MASK) == 0xf_ffff_ffff && High(ADDR_MASK) == 0
    ensures Low(PGFLAG_MASK) == 0xfff && Mid(PGFLAG_MASK) == 0 && High(PGFLAG_MASK) == 0xffff
    ensures Not(PGFLAG_MASK) == ADDR_MASK
  {
    FieldsOfJoin(0, 0xf_ffff_ffff, 0);
    FieldsOfJoin(0xffff, 0, 0xfff);
  }

  /** The entry's address field, as a 48-bit address with the low 12 bits clear. */
  function AddrBits(x: u64): (r: nat)
    ensures r == Mid(x) * 0x1000
  {
    FieldsJoin(x);
    MaskFields();
    FieldsAnd(x, ADDR_MASK);
    Pow2Constants();
    AndOnes(Mid(x), 36);
    AndOnes(Low(x), 12);
    AndOnes(High(x), 16);
    FieldsJoin(And(x, ADDR_MASK));
    And(x, ADDR_MASK)
  }

  /** `flags()`: the attribute bits, everything outside the address field. */
  function Flags(e: Entry): (r: u64)
    ensures Mid(r) == 0 && Low(r) == Low(e.bits) && High(r) == High(e.bits)
  {
    var r := And(e.bits, PGFLAG_MASK);
    assert r < WORD by {
      AndLe(e.bits, PGFLAG_MASK);
    }
    assert Mid(r) == 0 && Low(r) == Low(e.bits) && High(r) == High(e.bits) by {
      FieldsJoin(e.bits);
      MaskFields();
      FieldsAnd(e.bits, PGFLAG_MASK);
      Pow2Constants();
      AndOnes(Mid(e.bits), 36);
      AndOnes(Low(e.bits), 12);
      AndOnes(High(e.bits), 16);
    }
    r
  }

  /** `addr()`: the address field, passed through `PhysAddr::from`. */
  function Addr(e: Entry): (r: PhysAddr)
    ensures r.raw == Mid(e.bits) * 0x1000
    ensures r.raw % 0x1000 == 0 && r.raw < ADDR_LIMIT
  {
    var v := AddrBits(e.bits);
    FieldsJoin(e.bits);
    AndLe(e.bits, ADDR_MASK);
    DivModUnique(v, ADDR_LIMIT, 0, v);
    DivModUnique(v, 0x1000, Mid(e.bits), 0);
    PhysFrom(v)
  }

  /** A descriptor splits into its attribute and address parts and is
      rebuilt from them. */
  lemma FlagsAddrPartition(e: Entry)
    ensures e.bits == Flags(e) + Addr(e).raw
  {
    FieldsJoin(e.bits);
    FieldsJoin(Flags(e));
  }

  predicate IsUnused(e: Entry) {
    e.bits == 0
  }

  /** `is_valid()`: bit 0 of the flags. */
  predicate IsValid(e: Entry) {
    TestBit(Flags(e), 0)
  }

  /** `is_block()`: bit 1 of the flags is clear. */
  predicate IsBlock(e: Entry) {
    !TestBit(Flags(e), 1)
  }

  lemma LowBits(x: nat)
    ensures TestBit(x, 0) <==> x % 2 == 1
    ensures TestBit(x, 1) <==> (x / 2) % 2 == 1
    ensures x % 4 == Low(x) % 4
  {
    assert Hi(x, 1) == Hi(x / 2, 0) == x / 2;
    var m := x % 0x1000;
    assert Low(x) == m by {
      LoIsMod(x, 12);
      Pow2Constants();
    }
    DivModUnique(x, 4, 1024 * (x / 0x1000) + m / 4, m % 4);
  }

  /** Words that agree modulo 4 agree in bits 0 and 1. */
  lemma Mod4Bits(x: nat, y: nat)
    requires x % 4 == y % 4
    ensures x % 2 == y % 2 && (x / 2) % 2 == (y / 2) % 2
  {
    var r := x % 4;
    DivModUnique(x, 2, 2 * (x / 4) + r / 2, r % 2);
    DivModUnique(y, 2, 2 * (y / 4) + r / 2, r % 2);
    DivModUnique(x / 2, 2, x / 4, r / 2);
    DivModUnique(y / 2, 2, y / 4, r / 2);
  }

  /** Validity and the descriptor type are bits 0 and 1 of the word itself. */
  lemma TypeBits(e: Entry)
    ensures IsValid(e) <==> e.bits % 2 == 1
    ensures IsBlock(e) <==> (e.bits / 2) % 2 == 0
  {
    LowBits(e.bits);
    LowBits(Flags(e));
    Mod4Bits(Flags(e), e.bits);
  }

  /** `frame()`: the 4 KiB frame a valid table or page descriptor points at. */
  function Frame(e: Entry): (r: Result<PhysFrame, FrameError>)
    ensures r == Err(FrameNotPresent) <==> !IsValid(e)
    ensures r == Err(HugeFrame) <==> IsValid(e) && IsBlock(e)
    ensures r.Ok? ==> r.value.size == Size4KiB && r.value.start == Addr(e)
  {
    ContainingAligned(Size4KiB, Addr(e));
    if !IsValid(e) then Err(FrameNotPresent)
    else if IsBlock(e) then Err(HugeFrame)
    else Ok(ContainingAddress(Size4KiB, Addr(e)))
  }

  /** A flag value sets nothing in the address field. */
  predicate FlagsOnly(flags: u64) {
    Mid(flags) == 0
  }

  /** `set_addr`: the address ORed with the flag value; the address must be
      4 KiB aligned. */
  function SetAddr(e: Entry, addr: PhysAddr, flags: u64): (r: Entry)
    requires addr.raw % 0x1000 == 0
    ensures addr.raw < ADDR_LIMIT && FlagsOnly(flags) ==>
      Addr(r) == addr && Flags(r) == flags
  {
    Pow2Constants();
    OrBound(addr.raw, flags, 64);
    var r := Entry(Or(addr.raw, flags));
    if addr.raw < ADDR_LIMIT && FlagsOnly(flags) then
      SetAddrReadBack(addr.raw, flags);
      r
    else
      r
  }

  lemma SetAddrReadBack(a: u64, flags: u64)
    requires a % 0x1000 == 0 && a < ADDR_LIMIT && FlagsOnly(flags)
    requires Or(a, flags) < WORD
    ensures Addr(Entry(Or(a, flags))).raw == a && Flags(Entry(Or(a, flags))) == flags
  {
    var x := Or(a, flags);
    assert Low(a) == 0 && High(a) == 0 && Mid(a) * 0x1000 == a by {
      FieldsJoin(a);
      LoIsMod(a, 12);
      Pow2Constants();
      HiBound(a, 48, 0);
    }
    assert Low(x) == Low(flags) && Mid(x) == Mid(a) && High(x) == High(flags) by {
      FieldsOr(a, flags);
      OrZero(Mid(a));
      OrZero(Low(flags));
      OrZero(High(flags));
    }
    assert Flags(Entry(x)) == flags by {
      FieldsJoin(flags);
      FieldsJoin(Flags(Entry(x)));
    }
  }

  /** Reading back a descriptor built by `set_addr`: address, flags, validity
      and type are what was written. */
  lemma SetAddrTypeBits(e: Entry, addr: PhysAddr, flags: u64)
    requires addr.raw % 0x1000 == 0
    ensures IsValid(SetAddr(e, addr, flags)) <==> TestBit(flags, 0)
    ensures IsBlock(SetAddr(e, addr, flags)) <==> !TestBit(flags, 1)
  {
    var r := SetAddr(e, addr, flags);
    assert r.bits == Or(addr.raw, flags);
    assert Low(r.bits) == Low(flags) by {
      FieldsOr(addr.raw, flags);
      LoIsMod(addr.raw, 12);
      Pow2Constants();
      OrZero(Low(flags));
    }
    assert r.bits % 4 == flags % 4 by {
      LowBits(r.bits);
      LowBits(flags);
    }
    Mod4Bits(r.bits, flags);
    TypeBits(r);
    LowBits(flags);
  }

  /** `set_frame`: a table or page descriptor; the flags must carry TABLE. */
  function SetFrame(e: Entry, frame: PhysFrame, flags: u64): (r: Entry)
    requires frame.size == Size4KiB && WellFormed(frame)
    requires TestBit(flags, 1)
    ensures frame.start.raw < ADDR_LIMIT && FlagsOnly(flags) ==>
      Addr(r) == frame.start && Flags(r) == flags && !IsBlock(r)
  {
    SetAddr(e, frame.start, flags)
  }

  /** `set_block`: a block descriptor; the flags must not carry TABLE. */
  function SetBlock(e: Entry, addr: PhysAddr, flags: u64): (r: Entry)
    requires addr.raw % 0x1000 == 0
    requires !TestBit(flags, 1)
    ensures addr.raw < ADDR_LIMIT && FlagsOnly(flags) ==>
      Addr(r) == addr && Flags(r) == flags && IsBlock(r)
  {
    SetAddr(e, addr, flags)
  }

  /** A valid descriptor made by `set_frame` yields its frame back. */
  lemma SetFrameRoundTrip(e: Entry, frame: PhysFrame, flags: u64)
    requires frame.size == Size4KiB && WellFormed(frame) && frame.start.raw < ADDR_LIMIT
    requires TestBit(flags, 1) && TestBit(flags, 0) && FlagsOnly(flags)
    ensures Frame(SetFrame(e, frame, flags)) == Ok(frame)
  {
    var r := SetFrame(e, frame, flags);
    ContainingAligned(Size4KiB, frame.start);
  }

  /** `set_flags`: replace the attribute bits, keep the address. */
  function SetFlags(e: Entry, flags: u64): (r: Entry)
    ensures FlagsOnly(flags) ==> Addr(r) == Addr(e) && Flags(r) == flags
  {
    SetFlagsFits(e, flags);
    var r := Entry(Or(And(e.bits, Not(PGFLAG_MASK)), flags));
    if FlagsOnly(flags) then
      SetFlagsReadBack(e, flags);
      r
    else
      r
  }

  /** Clearing the flag field and ORing in any 64-bit flags stays a word. */
  lemma SetFlagsFits(e: Entry, flags: u64)
    ensures Not(PGFLAG_MASK) == ADDR_MASK
    ensures Or(And(e.bits, ADDR_MASK), flags) < WORD
  {
    MaskFields();
    AndLe(e.bits, ADDR_MASK);
    Pow2Word();
    OrBound(And(e.bits, ADDR_MASK), flags, 64);
  }

  lemma SetFlagsReadBack(e: Entry, flags: u64)
    requires FlagsOnly(flags)
    ensures Not(PGFLAG_MASK) == ADDR_MASK
    ensures Or(And(e.bits, ADDR_MASK), flags) < WORD
    ensures var x := Or(And(e.bits, ADDR_MASK), flags);
      Addr(Entry(x)) == Addr(e) && Flags(Entry(x)) == flags
  {
    SetFlagsFits(e, flags);
    var kept := AddrBits(e.bits);
    assert kept % 0x1000 == 0 && kept < ADDR_LIMIT by {
      FieldsJoin(e.bits);
      DivModUnique(kept, 0x1000, Mid(e.bits), 0);
    }
    SetAddrReadBack(kept, flags);
  }

  /** A page table: exactly ENTRY_COUNT descriptors. */
  type PageTable = t: seq<Entry> | |t| == ENTRY_COUNT witness seq(ENTRY_COUNT, i => Entry(0))

  /** `PageTable::new()`: every entry unused. */
  function NewTable(): (r: PageTable)
    ensures forall i :: 0 <= i < ENTRY_COUNT ==> IsUnused(r[i])
  {
    seq(ENTRY_COUNT, i => Entry(0))
  }

  /** `zero()`: sets every entry unused, one at a time. */
  method Zero(t: PageTable) returns (r: PageTable)
    ensures forall i :: 0 <= i < ENTRY_COUNT ==> IsUnused(r[i])
    ensures r == NewTable()
  {
    r := t;
    var i := 0;
    while i < ENTRY_COUNT
      invariant 0 <= i <= ENTRY_COUNT
      invariant forall j :: 0 <= j < i ==> IsUnused(r[j])
    {
      r := r[i := Entry(0)];
      i := i + 1;
    }
  }

  /** `table[i] = entry` (`IndexMut`): an out-of-range index is fatal. */
  function SetEntry(t: PageTable, i: nat, e: Entry): (r: PageTable)
    requires i < ENTRY_COUNT
    ensures r[i] == e
    ensures forall j :: 0 <= j < ENTRY_COUNT && j != i ==> r[j] == t[j]
  {
    t[i := e]
  }
}
