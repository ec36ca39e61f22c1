/** The base-tagged address types of addr_type.rs: physical, kernel and user
    addresses share one representation, a word whose low 48 bits are the
    offset and whose top 16 bits are the space's base. */
module AddrType {
  import opened Bits
  import Align

  datatype Space = Phys | Kernel | User

  /** The field is private; only `New` builds one. */
  datatype Addr = Addr(space: Space, raw: u64)

  const BASE_CLEAR_MASK: u64 := 0x0000_ffff_ffff_ffff
  /** Size of the window below or above each base. */
  const WINDOW: nat := 0x1_0000_0000_0000

  /** `Addr::base()` of each space. */
  function Base(s: Space): (r: u64)
    ensures r % WINDOW == 0 && r + WINDOW <= WORD
    ensures s == Kernel <==> r != 0
  {
    match s
    case Kernel => 0xffff_0000_0000_0000
    case _ => 0
  }

  /** What `new` establishes: the space's base plus a 48-bit offset. */
  predicate Valid(a: Addr) {
    Base(a.space) <= a.raw < Base(a.space) + WINDOW
  }

  lemma WindowOffset(s: Space, x: nat)
    requires Base(s) <= x < Base(s) + WINDOW
    ensures x % WINDOW == x - Base(s)
  {
    if s == Kernel {
      DivModUnique(x, WINDOW, 0xffff, x - Base(s));
    } else {
      DivModUnique(x, WINDOW, 0, x);
    }
  }

  lemma NewValue(s: Space, addr: u64)
    ensures And(addr, BASE_CLEAR_MASK) == addr % WINDOW
    ensures Or(And(addr, BASE_CLEAR_MASK), Base(s)) == Base(s) + addr % WINDOW
  {
    Pow2Constants();
    AndLowOnes(addr, 48);
    LoIsMod(addr, 48);
    var l := addr % WINDOW;
    if s == Kernel {
      OrDisjoint(l, 0xffff, 48);
    } else {
      OrZero(l);
    }
  }

  /** `new`: clear the top 16 bits, then OR in the base. */
  function New(s: Space, addr: u64): (r: Addr)
    ensures r.space == s && Valid(r)
    ensures r.raw - Base(s) == addr % WINDOW
  {
    NewValue(s, addr);
    Addr(s, Or(And(addr, BASE_CLEAR_MASK), Base(s)))
  }

  /** `new` is the identity on values it produced, so it is idempotent. */
  lemma NewOfValid(a: Addr)
    requires Valid(a)
    ensures New(a.space, a.raw) == a
  {
    WindowOffset(a.space, a.raw);
  }

  /** `num`: the page number, `addr >> 12`. */
  function Num(a: Addr): (r: nat)
    ensures r * 0x1000 <= a.raw < r * 0x1000 + 0x1000
    ensures Valid(a) ==> Base(a.space) / 0x1000 <= r
  {
    a.raw / 0x1000
  }

  /** `is_aligned(align)`: the offset is zero. */
  predicate IsAligned(a: Addr, align: u64)
    requires align >= 1
  {
    Align.Offset(a.raw, align) == 0
  }

  /** For a power of two, an address is aligned exactly when it is a
      multiple of the alignment; the window bases are multiples of every
      alignment up to the window, so this is also the offset from the base. */
  lemma IsAlignedIsMultiple(a: Addr, align: u64)
    requires Align.IsPowerOfTwo(align)
    ensures IsAligned(a, align) <==> a.raw % align == 0
    ensures Valid(a) && WINDOW % align == 0 ==>
      (IsAligned(a, align) <==> (a.raw - Base(a.space)) % align == 0)
  {
    if Valid(a) && WINDOW % align == 0 {
      BaseAligned(a.space, align);
      var q := Base(a.space) / align;
      assert Base(a.space) == align * q;
      var x := a.raw - Base(a.space);
      DivModUnique(a.raw, align, q + x / align, x % align);
    }
  }

  lemma BaseAligned(s: Space, align: nat)
    requires align > 0 && WINDOW % align == 0
    ensures Base(s) % align == 0 && (Base(s) + WINDOW) % align == 0
  {
    var q := WINDOW / align;
    assert WINDOW == align * q;
    if s == Kernel {
      DivModUnique(Base(s), align, 0xffff * q, 0);
      DivModUnique(Base(s) + WINDOW, align, 0x10000 * q, 0);
    } else {
      DivModUnique(Base(s) + WINDOW, align, q, 0);
    }
  }

  /** `floor`: the aligned-down raw word, passed back through `new`.  For an
      alignment no larger than the window the result stays in the window and is
      the greatest aligned address not above the input. */
  function Floor(a: Addr, align: u64): (r: Addr)
    requires Align.IsPowerOfTwo(align)
    ensures r.space == a.space && Valid(r)
    ensures Valid(a) && WINDOW % align == 0 ==>
      r.raw <= a.raw && r.raw % align == 0 && a.raw - r.raw < align
  {
    var f := Align.Floor(a.raw, align);
    if Valid(a) && WINDOW % align == 0 then
      BaseAligned(a.space, align);
      Align.FloorGreatest(a.raw, align, Base(a.space));
      WindowOffset(a.space, f);
      New(a.space, f)
    else
      New(a.space, f)
  }

  /** `ceil`: the aligned-up raw word (the `+ 1` must not overflow), passed
      back through `new`.  Rounding up past the window's top wraps around to
      the base. */
  function Ceil(a: Addr, align: u64): (r: Addr)
    requires Align.IsPowerOfTwo(align) && Align.CeilDefined(a.raw, align)
    ensures r.space == a.space && Valid(r)
    ensures Valid(a) && WINDOW % align == 0 ==>
      r.raw % align == 0 &&
      (r.raw == a.raw <==> a.raw % align == 0) &&
      (a.raw <= r.raw ==> r.raw - a.raw < align) &&
      (r.raw < a.raw ==> r.raw == Base(a.space) && Base(a.space) + WINDOW - a.raw < align)
  {
    var c := Align.Ceil(a.raw, align);
    if Valid(a) && WINDOW % align == 0 then
      BaseAligned(a.space, align);
      Align.CeilLeast(a.raw, align, Base(a.space) + WINDOW);
      if c < Base(a.space) + WINDOW then
        WindowOffset(a.space, c);
        New(a.space, c)
      else
        DivModUnique(c, WINDOW, c / WINDOW, 0);
        New(a.space, c)
    else
      New(a.space, c)
  }

  /** `+ u64`: checked add (fatal on overflow), then `new`. */
  function Add(a: Addr, rhs: u64): (r: Addr)
    requires a.raw + rhs < WORD
    ensures r.space == a.space && Valid(r)
    ensures Valid(a) && a.raw + rhs < Base(a.space) + WINDOW ==> r.raw == a.raw + rhs
  {
    if Valid(a) && a.raw + rhs < Base(a.space) + WINDOW then
      WindowOffset(a.space, a.raw + rhs);
      New(a.space, a.raw + rhs)
    else
      New(a.space, a.raw + rhs)
  }

  /** `- u64`: checked subtraction (fatal on underflow), then `new`. */
  function Sub(a: Addr, rhs: u64): (r: Addr)
    requires rhs <= a.raw
    ensures r.space == a.space && Valid(r)
    ensures Valid(a) && Base(a.space) <= a.raw - rhs ==> r.raw == a.raw - rhs
  {
    if Valid(a) && Base(a.space) <= a.raw - rhs then
      WindowOffset(a.space, a.raw - rhs);
      New(a.space, a.raw - rhs)
    else
      New(a.space, a.raw - rhs)
  }

  /** Within a window, `+ k` and `- k` undo each other. */
  lemma AddSubRoundTrip(a: Addr, k: u64)
    requires Valid(a) && a.raw + k < Base(a.space) + WINDOW
    ensures Sub(Add(a, k), k) == a
  {}

  lemma SubAddRoundTrip(a: Addr, k: u64)
    requires Valid(a) && Base(a.space) + k <= a.raw
    ensures Add(Sub(a, k), k) == a
  {}

  /** Subtracting below a kernel address's base does not fail: `new` puts the
      base back, so the result lands near the top of the kernel window. */
  lemma KernelSubWraps()
    ensures Sub(New(Kernel, 0), 1).raw == 0xffff_ffff_ffff_ffff
  {
    var b := New(Kernel, 0);
    assert b.raw == Base(Kernel);
    DivModUnique(b.raw - 1, WINDOW, 0xfffe, WINDOW - 1);
  }

  /** `phys_to_kernel`: the physical address under the kernel base. */
  function PhysToKernel(p: Addr): (r: Addr)
    requires p.space == Phys
    ensures r.space == Kernel && Valid(r)
    ensures Valid(p) ==> r.raw == p.raw + Base(Kernel)
  {
    if Valid(p) then
      WindowOffset(Phys, p.raw);
      New(Kernel, p.raw)
    else
      New(Kernel, p.raw)
  }

  /** `kernel_to_phys`: the kernel address with its base cleared. */
  function KernelToPhys(k: Addr): (r: Addr)
    requires k.space == Kernel
    ensures r.space == Phys && Valid(r)
    ensures Valid(k) ==> r.raw == k.raw - Base(Kernel)
  {
    if Valid(k) then
      WindowOffset(Kernel, k.raw);
      New(Phys, k.raw)
    else
      New(Phys, k.raw)
  }

  /** The two translations are mutual inverses on constructed addresses. */
  lemma TranslationRoundTrips(p: Addr, k: Addr)
    requires p.space == Phys && Valid(p)
    requires k.space == Kernel && Valid(k)
    ensures KernelToPhys(PhysToKernel(p)) == p
    ensures PhysToKernel(KernelToPhys(k)) == k
  {}
}
