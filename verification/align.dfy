/** The `floor`/`ceil` alignment helpers.  The same two functions appear in
    addr_type.rs (on u64), mm_type.rs and mm/address.rs (on usize); all three
    use the mask formulation modelled here. */
module Align {
  import opened Bits

  /** Exponent of the largest power of two not above `x`. */
  function Log2(x: nat): nat {
    if x <= 1 then 0 else 1 + Log2(x / 2)
  }

  /** `align.is_power_of_two()` for a 64-bit `align`. */
  predicate IsPowerOfTwo(align: nat) {
    0 < align < WORD && Pow2(Log2(align)) == align
  }

  lemma Log2Small(align: nat)
    requires IsPowerOfTwo(align)
    ensures Log2(align) < 64
  {
    if Log2(align) >= 64 {
      Pow2Monotone(64, Log2(align));
      Pow2Constants();
    }
  }

  lemma PowerOfTwoOf(k: nat)
    requires k < 64
    ensures IsPowerOfTwo(Pow2(k)) && Log2(Pow2(k)) == k
  {
    Log2OfPow2(k);
    Pow2Constants();
    Pow2Monotone(k, 63);
    Pow2Add(63, 1);
  }

  lemma {:induction false} Log2OfPow2(k: nat)
    ensures Log2(Pow2(k)) == k
    decreases k
  {
    if k > 0 {
      Log2OfPow2(k - 1);
      assert Pow2(k) / 2 == Pow2(k - 1);
    }
  }

  /** The low bits selected by `align - 1` are the remainder by `align`. */
  lemma MaskIsRemainder(addr: u64, align: u64)
    requires IsPowerOfTwo(align)
    ensures And(addr, align - 1) == addr % align
  {
    var k := Log2(align);
    AndLowOnes(addr, k);
    LoIsMod(addr, k);
  }

  lemma ClearIsRoundDown(addr: u64, align: u64)
    requires IsPowerOfTwo(align)
    ensures And(addr, Not(align - 1)) == addr - addr % align
  {
    var k := Log2(align);
    Log2Small(align);
    var h := Hi(addr, k);
    assert And(addr, Not(align - 1)) == h * align by {
      AndNotLowOnes(addr, k);
    }
    assert addr == h * align + addr % align by {
      HiLoJoin(addr, k);
      LoIsMod(addr, k);
    }
  }

  lemma SetIsRoundUp(addr: u64, align: u64)
    requires IsPowerOfTwo(align)
    ensures Or(addr, align - 1) == addr - addr % align + align - 1
  {
    var k := Log2(align);
    var h := Hi(addr, k);
    assert Or(addr, align - 1) == h * align + align - 1 by {
      OrLowOnes(addr, k);
    }
    assert addr == h * align + addr % align by {
      HiLoJoin(addr, k);
      LoIsMod(addr, k);
    }
  }

  /** `addr & (align - 1)`: for a power of two, the offset of `addr`
      within its aligned block.  Nothing checks the alignment; only a zero
      one makes `align - 1` underflow. */
  function Offset(addr: u64, align: u64): (r: u64)
    requires align >= 1
    ensures r <= addr && r < align
    ensures IsPowerOfTwo(align) ==> r == addr % align
  {
    AndLe(addr, align - 1);
    if IsPowerOfTwo(align) then
      MaskIsRemainder(addr, align);
      And(addr, align - 1)
    else
      And(addr, align - 1)
  }

  /** `floor(addr, align)`: clear the bits below the alignment. */
  function Floor(addr: u64, align: u64): (r: u64)
    requires IsPowerOfTwo(align)
    ensures r <= addr && r % align == 0 && addr - r < align
  {
    ClearIsRoundDown(addr, align);
    RoundDownMultiple(addr, align);
    And(addr, Not(align - 1))
  }

  /** `ceil` does not overflow: the address is aligned, or the next
      multiple of `align` still fits in 64 bits. */
  predicate CeilDefined(addr: u64, align: u64)
    requires IsPowerOfTwo(align)
  {
    addr % align == 0 || addr - addr % align + align < WORD
  }

  /** `ceil(addr, align)`: unchanged if aligned, else set the bits below the
      alignment and add one. */
  function Ceil(addr: u64, align: u64): (r: u64)
    requires IsPowerOfTwo(align) && CeilDefined(addr, align)
    ensures addr <= r && r % align == 0 && r - addr < align
    ensures addr % align == 0 <==> r == addr
  {
    MaskIsRemainder(addr, align);
    SetIsRoundUp(addr, align);
    RoundDownMultiple(addr, align);
    RoundUpMultiple(addr, align);
    var mask := align - 1;
    if And(addr, mask) == 0 then addr else Or(addr, mask) + 1
  }

  /** No multiple of `align` lies strictly between `Floor` and `addr`. */
  lemma FloorGreatest(addr: u64, align: u64, m: nat)
    requires IsPowerOfTwo(align) && m % align == 0 && m <= addr
    ensures m <= Floor(addr, align)
  {
    var r := Floor(addr, align);
    MultipleGap(m, r, align);
  }

  /** No multiple of `align` lies at or above `addr` and below `Ceil`. */
  lemma CeilLeast(addr: u64, align: u64, m: nat)
    requires IsPowerOfTwo(align) && CeilDefined(addr, align)
    requires m % align == 0 && addr <= m
    ensures Ceil(addr, align) <= m
  {
    var r := Ceil(addr, align);
    MultipleGap(r, m, align);
  }

  lemma RoundDownMultiple(x: nat, d: nat)
    requires d > 0
    ensures (x - x % d) % d == 0
  {
    DivModUnique(x - x % d, d, x / d, 0);
  }

  lemma RoundUpMultiple(x: nat, d: nat)
    requires d > 0
    ensures (x - x % d + d) % d == 0
  {
    DivModUnique(x - x % d + d, d, x / d + 1, 0);
  }

  /** Two multiples of `d` closer than `d` apart, with the first not below
      the second minus `d`, are ordered. */
  lemma MultipleGap(a: nat, b: nat, d: nat)
    requires d > 0 && a % d == 0 && b % d == 0 && a < b + d
    ensures a <= b
  {
    var qa, qb := a / d, b / d;
    assert a == d * qa && b == d * qb;
    MulSign(d, qa - qb);
    assert d * (qa - qb) == a - b;
  }
}
